/** The browser's in-memory cache of materialized file artifacts (src/lib/stores/fileCache.js):
    a JavaScript `Map` from "<type>:<path>" to `{content, timestamp, size}` with a five-minute
    lazy expiry, a 1 MiB per-item limit, count-triggered eviction of the oldest entries, and
    hit/miss/size/totalSize counters. */
module FileCache {
  import opened Common
  import opened OrderedMap

  const CACHE_MAX_SIZE: nat := 50
  const CACHE_MAX_FILE_SIZE: nat := 1024 * 1024
  const CACHE_EXPIRY_TIME: nat := 5 * 60 * 1000

  /** One cached artifact; `timestamp` is the millisecond clock reading taken when it was stored. */
  datatype Entry = Entry(content: string, timestamp: int, size: nat)

  /** What the network returned for the artifact URL: `fetch` rejected, or a response with its
      status, status text and body text. */
  datatype FetchResult = Rejected(reason: string) | Received(status: nat, statusText: string, body: string)

  /** What `getCachedFileContent` settles with: `null` outside the browser, the content, or the
      message of the error it rethrows. */
  datatype Lookup = NotInBrowser | Content(text: string) | Failed(message: string)

  datatype Stats = Stats(hits: nat, misses: nat, size: int, totalSize: int, hitRate: string)

  /** Bytes of one character in UTF-8. */
  function Utf8Width(c: char): (w: nat)
    ensures 1 <= w <= 4
  {
    if c as int < 0x80 then 1
    else if c as int < 0x800 then 2
    else if c as int < 0x10000 then 3
    else 4
  }

  /** `new Blob([content]).size`: the UTF-8 length of the text. */
  function ByteSize(s: string): (r: nat)
    ensures |s| <= r <= 4 * |s|
  {
    if s == [] then 0 else Utf8Width(s[0]) + ByteSize(s[1..])
  }

  /** `getCacheKey(filePath, type)`. */
  function CacheKey(filePath: string, kind: string): string {
    kind + ":" + filePath
  }

  /** README and script lookups never share a cache slot, and for one type distinct paths have
      distinct keys. */
  lemma CacheKeysSeparate(p: string, q: string, kind: string)
    ensures CacheKey(p, "readme") != CacheKey(q, "script")
    ensures CacheKey(p, kind) == CacheKey(q, kind) ==> p == q
  {
    assert CacheKey(p, "readme")[0] != CacheKey(q, "script")[0];
    if CacheKey(p, kind) == CacheKey(q, kind) {
      assert p == CacheKey(p, kind)[|kind| + 1..];
    }
  }

  /** `isCacheEntryExpired`: strictly more than five minutes old. */
  predicate IsExpired(e: Entry, now: int) {
    now - e.timestamp > CACHE_EXPIRY_TIME
  }

  predicate IsSeparator(c: char) {
    c == '/' || c == '\\'
  }

  /** `filePath.replace(/[\/\\]/g, '_')`. */
  function EscapePath(p: string): (r: string)
    ensures |r| == |p|
    ensures forall i :: 0 <= i < |p| ==> r[i] == if IsSeparator(p[i]) then '_' else p[i]
  {
    if p == [] then [] else [if IsSeparator(p[0]) then '_' else p[0]] + EscapePath(p[1..])
  }

  /** The artifact file name: escaped path plus `.html` for READMEs, `.txt` otherwise. */
  function ArtifactName(filePath: string, kind: string): (r: string)
    ensures forall i :: 0 <= i < |r| ==> !IsSeparator(r[i])
    ensures |r| == |filePath| + if kind == "readme" then 5 else 4
    ensures EndsWith(r, if kind == "readme" then ".html" else ".txt")
  {
    var name := EscapePath(filePath) + (if kind == "readme" then ".html" else ".txt");
    assert name[|name| - (if kind == "readme" then 5 else 4)..] == if kind == "readme" then ".html" else ".txt";
    name
  }

  /** The URL fetched on a miss, under the application's `base` path. */
  function ArtifactUrl(base: string, filePath: string, kind: string): string {
    base + (if kind == "readme" then "/data/readmes/" else "/data/scripts/") + ArtifactName(filePath, kind)
  }

  /** A path written with Windows separators fetches the same artifact as its POSIX form. */
  function ToPosix(p: string): (r: string)
    ensures |r| == |p|
    ensures forall i :: 0 <= i < |p| ==> r[i] == if p[i] == '\\' then '/' else p[i]
  {
    if p == [] then [] else [if p[0] == '\\' then '/' else p[0]] + ToPosix(p[1..])
  }

  lemma SeparatorStyleIrrelevant(base: string, p: string, kind: string)
    ensures ArtifactUrl(base, ToPosix(p), kind) == ArtifactUrl(base, p, kind)
  {
    var a, b := EscapePath(ToPosix(p)), EscapePath(p);
    forall i | 0 <= i < |p| ensures a[i] == b[i] {
      assert IsSeparator(ToPosix(p)[i]) == IsSeparator(p[i]);
    }
    assert a == b;
  }

  /** The escaping is not injective: a separator and an underscore land on the same artifact,
      so "a/b" and "a_b" are cached under different keys but fetch the same URL. */
  lemma EscapingCollides(base: string, kind: string)
    ensures CacheKey("a/b", kind) != CacheKey("a_b", kind)
    ensures ArtifactUrl(base, "a/b", kind) == ArtifactUrl(base, "a_b", kind)
  {
    assert EscapePath("a/b") == EscapePath("a_b");
    assert CacheKey("a/b", kind)[|kind| + 2] != CacheKey("a_b", kind)[|kind| + 2];
  }

  /** Sum of the byte sizes of the cached contents. */
  function TotalBytes(s: seq<Pair<Entry>>): nat {
    if s == [] then 0 else ByteSize(s[0].val.content) + TotalBytes(s[1..])
  }

  lemma {:induction false} TotalBytesAppend(s: seq<Pair<Entry>>, p: Pair<Entry>)
    ensures TotalBytes(s + [p]) == TotalBytes(s) + ByteSize(p.val.content)
  {
    if s != [] {
      assert (s + [p])[1..] == s[1..] + [p];
      TotalBytesAppend(s[1..], p);
    }
  }

  lemma {:induction false} TotalBytesDelete(s: seq<Pair<Entry>>, p: Pair<Entry>)
    requires KeyDistinct(s) && p in s
    ensures TotalBytes(Delete(s, p.key)) == TotalBytes(s) - ByteSize(p.val.content)
  {
    if s[0] == p {
      DeleteAbsent(s[1..], p.key);
    } else {
      TotalBytesDelete(s[1..], p);
    }
  }

  /** Timestamps never decrease along `s`. */
  predicate OldestFirst(s: seq<Pair<Entry>>) {
    forall i, j :: 0 <= i < j < |s| ==> s[i].val.timestamp <= s[j].val.timestamp
  }

  /** Insert `p` before the first element that is not older than it. */
  function InsertByAge(p: Pair<Entry>, s: seq<Pair<Entry>>): seq<Pair<Entry>> {
    if s == [] || p.val.timestamp <= s[0].val.timestamp then [p] + s
    else [s[0]] + InsertByAge(p, s[1..])
  }

  /** `entries.sort((a, b) => a[1].timestamp - b[1].timestamp)`: a stable sort, oldest first. */
  function SortByAge(s: seq<Pair<Entry>>): seq<Pair<Entry>> {
    if s == [] then [] else InsertByAge(s[0], SortByAge(s[1..]))
  }

  lemma {:induction false} InsertByAgeElements(p: Pair<Entry>, s: seq<Pair<Entry>>)
    ensures multiset(InsertByAge(p, s)) == multiset(s) + multiset{p}
    ensures forall x :: x in InsertByAge(p, s) <==> x == p || x in s
    ensures |InsertByAge(p, s)| == |s| + 1
  {
    if s != [] && p.val.timestamp > s[0].val.timestamp {
      InsertByAgeElements(p, s[1..]);
      assert s == [s[0]] + s[1..];
    }
  }

  lemma {:induction false} InsertByAgeFacts(p: Pair<Entry>, s: seq<Pair<Entry>>)
    requires OldestFirst(s)
    ensures OldestFirst(InsertByAge(p, s))
    ensures multiset(InsertByAge(p, s)) == multiset(s) + multiset{p}
  {
    InsertByAgeElements(p, s);
    if s == [] || p.val.timestamp <= s[0].val.timestamp {
      forall k | 0 <= k < |s| ensures p.val.timestamp <= s[k].val.timestamp {
        if k > 0 {
          assert s[0].val.timestamp <= s[k].val.timestamp;
        }
      }
      ConsOldestFirst(p, s);
    } else {
      var t := InsertByAge(p, s[1..]);
      TailOldestFirst(s);
      InsertByAgeFacts(p, s[1..]);
      InsertByAgeElements(p, s[1..]);
      forall k | 0 <= k < |t| ensures s[0].val.timestamp <= t[k].val.timestamp {
        assert t[k] in t;
        if t[k] != p {
          var m :| 0 <= m < |s[1..]| && s[1..][m] == t[k];
          assert s[m + 1] == t[k];
        }
      }
      ConsOldestFirst(s[0], t);
    }
  }

  /** Putting an entry no younger than any of an age-ordered list in front keeps it ordered. */
  lemma ConsOldestFirst(x: Pair<Entry>, t: seq<Pair<Entry>>)
    requires OldestFirst(t)
    requires forall k :: 0 <= k < |t| ==> x.val.timestamp <= t[k].val.timestamp
    ensures OldestFirst([x] + t)
  {
    var r := [x] + t;
    forall i, j | 0 <= i < j < |r| ensures r[i].val.timestamp <= r[j].val.timestamp {
      assert r[j] == t[j - 1];
      if i > 0 {
        assert r[i] == t[i - 1];
      }
    }
  }

  lemma TailOldestFirst(s: seq<Pair<Entry>>)
    requires OldestFirst(s) && s != []
    ensures OldestFirst(s[1..])
  {
    forall i, j | 0 <= i < j < |s[1..]| ensures s[1..][i].val.timestamp <= s[1..][j].val.timestamp {
      assert s[1..][i] == s[i + 1] && s[1..][j] == s[j + 1];
    }
  }

  /** The sort puts the entries in age order and loses or invents none. */
  lemma {:induction false} SortByAgeFacts(s: seq<Pair<Entry>>)
    ensures OldestFirst(SortByAge(s))
    ensures multiset(SortByAge(s)) == multiset(s)
    ensures |SortByAge(s)| == |s|
  {
    if s != [] {
      SortByAgeFacts(s[1..]);
      InsertByAgeFacts(s[0], SortByAge(s[1..]));
      InsertByAgeElements(s[0], SortByAge(s[1..]));
      assert s == [s[0]] + s[1..];
    }
  }

  /** How many entries `evictOldestEntries` removes from a cache holding `n`. */
  function EvictionCount(n: nat): nat {
    if n <= CACHE_MAX_SIZE then 0 else n - CACHE_MAX_SIZE + 1
  }

  /** The cache after `evictOldestEntries`: the `EvictionCount` entries that come first in the
      age order are gone, everything else stays in its original order. */
  function Evicted(s: seq<Pair<Entry>>): seq<Pair<Entry>> {
    if |s| <= CACHE_MAX_SIZE then s
    else Without(s, EvictedKeys(s))
  }

  /** The age order of a dictionary is a dictionary over the same keys. */
  lemma SortedIsDictionary(s: seq<Pair<Entry>>)
    requires KeyDistinct(s)
    ensures KeyDistinct(SortByAge(s))
    ensures KeySet(SortByAge(s)) == KeySet(s)
    ensures forall p :: p in SortByAge(s) <==> p in s
    ensures |SortByAge(s)| == |s|
  {
    var r := SortByAge(s);
    SortByAgeFacts(s);
    assert forall p :: p in r <==> p in multiset(r);
    assert forall p :: p in s <==> p in multiset(s);
    SameElementsSameKeys(r, s);
    DistinctCard(s);
    DistinctCard(r);
  }

  /** The keys eviction drops: those of the first `EvictionCount` entries in age order. */
  function EvictedKeys(s: seq<Pair<Entry>>): set<string>
    requires |s| > CACHE_MAX_SIZE
  {
    SortByAgeFacts(s);
    KeySet(SortByAge(s)[..EvictionCount(|s|)])
  }

  lemma EvictedKeysFacts(s: seq<Pair<Entry>>)
    requires KeyDistinct(s) && |s| > CACHE_MAX_SIZE
    ensures EvictedKeys(s) <= KeySet(s)
    ensures |EvictedKeys(s)| == EvictionCount(|s|)
  {
    var sorted := SortByAge(s);
    var k := EvictionCount(|s|);
    SortedIsDictionary(s);
    SortByAgeFacts(s);
    DistinctPrefix(sorted, k);
    DistinctCard(sorted[..k]);
    forall x | x in EvictedKeys(s) ensures x in KeySet(s) {
      var p :| p in sorted[..k] && p.key == x;
    }
  }

  /** Above 50 entries, eviction leaves exactly 49; it never invents entries and keeps the
      cache a dictionary. */
  lemma EvictedCount(s: seq<Pair<Entry>>)
    requires KeyDistinct(s)
    ensures |s| > CACHE_MAX_SIZE ==> |Evicted(s)| == CACHE_MAX_SIZE - 1
    ensures |s| <= CACHE_MAX_SIZE ==> |Evicted(s)| == |s|
    ensures KeyDistinct(Evicted(s))
    ensures forall p :: p in Evicted(s) ==> p in s
  {
    if |s| > CACHE_MAX_SIZE {
      EvictedKeysFacts(s);
      WithoutCount(s, EvictedKeys(s));
    }
  }

  /** Every entry eviction drops is at least as old as every entry it keeps. */
  lemma EvictedOldest(s: seq<Pair<Entry>>, p: Pair<Entry>, q: Pair<Entry>)
    requires KeyDistinct(s)
    requires p in s && p !in Evicted(s) && q in Evicted(s)
    ensures p.val.timestamp <= q.val.timestamp
  {
    var i := DroppedPosition(s, p);
    var j := KeptPosition(s, q);
    SortByAgeFacts(s);
    assert SortByAge(s)[i].val.timestamp <= SortByAge(s)[j].val.timestamp;
  }

  /** An entry eviction drops sits among the first `EvictionCount` of the age order. */
  lemma DroppedPosition(s: seq<Pair<Entry>>, p: Pair<Entry>) returns (i: nat)
    requires KeyDistinct(s) && p in s && p !in Evicted(s)
    ensures |s| > CACHE_MAX_SIZE && i < EvictionCount(|s|) <= |SortByAge(s)|
    ensures SortByAge(s)[i] == p
  {
    var sorted := SortByAge(s);
    var k := EvictionCount(|s|);
    SortedIsDictionary(s);
    assert p.key in EvictedKeys(s);
    var p' :| p' in sorted[..k] && p'.key == p.key;
    DistinctKeysUnique(sorted, p, p');
    i :| 0 <= i < k && sorted[..k][i] == p;
  }

  /** An entry eviction keeps sits at or after position `EvictionCount` of the age order. */
  lemma KeptPosition(s: seq<Pair<Entry>>, q: Pair<Entry>) returns (j: nat)
    requires KeyDistinct(s) && |s| > CACHE_MAX_SIZE && q in Evicted(s)
    ensures EvictionCount(|s|) <= j < |SortByAge(s)|
    ensures SortByAge(s)[j] == q
  {
    var sorted := SortByAge(s);
    var k := EvictionCount(|s|);
    SortedIsDictionary(s);
    var gone := EvictedKeys(s);
    assert q in s && q.key !in gone;
    forall j' | 0 <= j' < k ensures sorted[j'].key in gone {
      assert sorted[..k][j'] == sorted[j'];
    }
    j :| 0 <= j < |sorted| && sorted[j] == q;
  }

  /** One round of the eviction loop: deleting the next key in age order extends the set of
      deleted keys by one and frees exactly that entry's bytes. */
  lemma EvictStep(s: seq<Pair<Entry>>, done: seq<Pair<Entry>>, slot: Pair<Entry>)
    requires KeyDistinct(s) && slot in s && slot.key !in KeySet(done)
    ensures Delete(Without(s, KeySet(done)), slot.key) == Without(s, KeySet(done + [slot]))
    ensures TotalBytes(Delete(Without(s, KeySet(done)), slot.key)) ==
      TotalBytes(Without(s, KeySet(done))) - ByteSize(slot.val.content)
    ensures TotalBytes(done + [slot]) == TotalBytes(done) + ByteSize(slot.val.content)
  {
    KeySetSnoc(done, slot);
    WithoutOneMore(s, KeySet(done), slot.key);
    assert slot in Without(s, KeySet(done));
    TotalBytesDelete(Without(s, KeySet(done)), slot);
    TotalBytesAppend(done, slot);
  }

  /** Deleting the keys of a dictionary of resident entries frees exactly their bytes. */
  lemma {:induction false} EvictedBytes(s: seq<Pair<Entry>>, done: seq<Pair<Entry>>)
    requires KeyDistinct(s) && KeyDistinct(done)
    requires forall p :: p in done ==> p in s
    ensures TotalBytes(Without(s, KeySet(done))) == TotalBytes(s) - TotalBytes(done)
    decreases |done|
  {
    if done == [] {
      assert KeySet(done) == {};
      WithoutNothing(s);
    } else {
      var init, last := done[..|done| - 1], done[|done| - 1];
      assert done == init + [last];
      DistinctPrefix(done, |done| - 1);
      EvictedBytes(s, init);
      EvictStep(s, init, last);
    }
  }

  /** No key is bound twice and every entry records its own byte size. */
  ghost predicate WellFormed(s: seq<Pair<Entry>>) {
    KeyDistinct(s) && forall p :: p in s ==> p.val.size == ByteSize(p.val.content)
  }

  /** Once the loop has deleted the keys of the first `EvictionCount` entries in age order,
      the cache is `Evicted` and still well formed. */
  lemma EvictLoopDone(s: seq<Pair<Entry>>, sorted: seq<Pair<Entry>>, removed: set<string>)
    requires WellFormed(s) && |s| > CACHE_MAX_SIZE && sorted == SortByAge(s) && |sorted| == |s|
    requires removed == KeySet(sorted[..EvictionCount(|s|)])
    ensures Without(s, removed) == Evicted(s)
    ensures WellFormed(Evicted(s))
  {
    EvictedCount(s);
  }

  /** A round of the eviction loop, stated on the loop's own terms. */
  lemma EvictRound(s: seq<Pair<Entry>>, sorted: seq<Pair<Entry>>, i: nat, gone: set<string>)
    requires KeyDistinct(s) && KeyDistinct(sorted) && i < |sorted| && sorted[i] in s
    requires gone == KeySet(sorted[..i])
    ensures gone + {sorted[i].key} == KeySet(sorted[..i + 1])
    ensures Delete(Without(s, gone), sorted[i].key) == Without(s, gone + {sorted[i].key})
    ensures TotalBytes(Delete(Without(s, gone), sorted[i].key)) ==
      TotalBytes(Without(s, gone)) - ByteSize(sorted[i].val.content)
  {
    DistinctPrefix(sorted, i);
    EvictStep(s, sorted[..i], sorted[i]);
    PrefixSnoc(sorted, i);
    KeySetSnoc(sorted[..i], sorted[i]);
  }

  /** The loop of `evictOldestEntries`: delete the keys of the first `count` entries of the
      age order one at a time, subtracting each deleted entry's bytes from the running total. */
  method DeleteInOrder(s: seq<Pair<Entry>>, sorted: seq<Pair<Entry>>, count: nat, total0: int)
    returns (cache: seq<Pair<Entry>>, total: int)
    requires KeyDistinct(s) && KeyDistinct(sorted) && count <= |sorted|
    requires forall j :: 0 <= j < |sorted| ==> sorted[j] in s
    requires total0 == TotalBytes(s)
    ensures cache == Without(s, KeySet(sorted[..count]))
    ensures total == TotalBytes(cache)
  {
    cache, total := s, total0;
    ghost var gone: set<string> := {};
    assert KeySet(sorted[..0]) == {};
    WithoutNothing(s);
    var i := 0;
    while i < count && i < |sorted|
      invariant 0 <= i <= count
      invariant gone == KeySet(sorted[..i])
      invariant cache == Without(s, gone)
      invariant total == TotalBytes(cache)
    {
      var slot := sorted[i];
      EvictRound(s, sorted, i, gone);
      total := total - ByteSize(slot.val.content);
      cache := Delete(cache, slot.key);
      gone := gone + {slot.key};
      i := i + 1;
    }
    assert i == count;
  }

  /** How a miss settles, given the cache `kept` once any expired entry is gone and the
      network's answer: a rejection or a non-2xx status becomes the error and stores nothing;
      a 2xx body is the content and is stored, after eviction, when it fits the item limit. */
  function MissOutcome(kept: seq<Pair<Entry>>, key: string, later: int, response: FetchResult)
    : (Lookup, seq<Pair<Entry>>)
  {
    match response
    case Rejected(reason) => (Failed(reason), kept)
    case Received(status, statusText, body) =>
      if !IsOk(status) then (Failed(HttpError(status, statusText)), kept)
      else if ByteSize(body) <= CACHE_MAX_FILE_SIZE then
        (Content(body), Evicted(kept) + [Pair(key, Entry(body, later, ByteSize(body)))])
      else (Content(body), kept)
  }

  /** Dropping a resident entry keeps the cache well formed and frees exactly its bytes. */
  lemma DeleteWellFormed(s: seq<Pair<Entry>>, p: Pair<Entry>)
    requires WellFormed(s) && p in s
    ensures WellFormed(Delete(s, p.key))
    ensures |Delete(s, p.key)| == |s| - 1
    ensures TotalBytes(Delete(s, p.key)) == TotalBytes(s) - ByteSize(p.val.content)
  {
    TotalBytesDelete(s, p);
  }

  /** Storing an entry under a key not yet resident, with its size recorded, keeps the cache
      well formed and adds exactly its bytes. */
  lemma AppendWellFormed(s: seq<Pair<Entry>>, p: Pair<Entry>)
    requires WellFormed(s) && p.key !in KeySet(s) && p.val.size == ByteSize(p.val.content)
    ensures WellFormed(s + [p])
    ensures TotalBytes(s + [p]) == TotalBytes(s) + ByteSize(p.val.content)
  {
    TotalBytesAppend(s, p);
    AppendFacts(s, p.key, p.val, p.key);
  }

  /** The resident count after an insertion that follows an eviction: never above 51, and 51
      is reached whenever the cache held exactly 50. */
  lemma InsertAfterEvictionCount(s: seq<Pair<Entry>>, p: Pair<Entry>)
    requires KeyDistinct(s) && |s| <= CACHE_MAX_SIZE + 1
    ensures |Evicted(s) + [p]| <= CACHE_MAX_SIZE + 1
    ensures |s| == CACHE_MAX_SIZE ==> |Evicted(s) + [p]| == CACHE_MAX_SIZE + 1
    ensures |s| > CACHE_MAX_SIZE ==> |Evicted(s) + [p]| == CACHE_MAX_SIZE
  {
    EvictedCount(s);
  }

  /** `hits / (hits + misses) * 100` in tenths of a percent, rounded to nearest with halves up
      (the digit that `toFixed(1)` keeps); zero when there were no requests. */
  function HitRateTenths(hits: nat, misses: nat): (r: nat)
    ensures hits + misses == 0 ==> r == 0
    ensures hits + misses > 0 ==> r <= 1000
    ensures hits + misses > 0 ==>
      2 * r * (hits + misses) <= 2000 * hits + (hits + misses) < 2 * (r + 1) * (hits + misses)
  {
    var total := hits + misses;
    if total == 0 then 0
    else
      var r := (2000 * hits + total) / (2 * total);
      RoundingBounds(hits, total, r);
      r
  }

  lemma RoundingBounds(hits: nat, total: nat, r: nat)
    requires 0 < total && hits <= total && r == (2000 * hits + total) / (2 * total)
    ensures r <= 1000
    ensures 2 * r * total <= 2000 * hits + total < 2 * (r + 1) * total
  {
    var n := 2000 * hits + total;
    var d := 2 * total;
    assert n == r * d + n % d && 0 <= n % d < d;
    assert 2 * r * total == r * d;
    assert 2 * (r + 1) * total == r * d + d;
    assert r * d < 1001 * d;
    if r > 1000 {
      MulMono(1001, r, d);
      assert false;
    }
  }

  lemma MulMono(a: int, b: int, d: nat)
    requires a <= b
    ensures a * d <= b * d
  {
    assert b * d - a * d == (b - a) * d;
  }

  /** `x.toFixed(1)` for a non-negative number given in tenths. */
  function FixedOne(tenths: nat): (r: string)
    ensures |r| >= 3 && r[|r| - 2] == '.'
  {
    NatToString(tenths / 10) + "." + [('0' as int + tenths % 10) as char]
  }

  /** Reading the rendered rate back gives the tenths it was rendered from. */
  lemma FixedOneRoundTrip(tenths: nat)
    ensures var r := FixedOne(tenths);
      (forall i :: 0 <= i < |r| - 2 ==> IsDigit(r[i])) && IsDigit(r[|r| - 1]) &&
      10 * DecimalValue(r[..|r| - 2]) + DigitValue(r[|r| - 1]) == tenths
  {
    var r := FixedOne(tenths);
    assert r[..|r| - 2] == NatToString(tenths / 10);
    DecimalRoundTrip(tenths / 10);
  }

  /** No requests gives "0.0" (no division); three hits and one miss give "75.0". */
  lemma HitRateExamples()
    ensures FixedOne(HitRateTenths(0, 0)) == "0.0"
    ensures FixedOne(HitRateTenths(3, 1)) == "75.0"
    ensures FixedOne(HitRateTenths(1, 0)) == "100.0"
  {
    assert HitRateTenths(3, 1) == 750;
    assert NatToString(75) == "75";
    assert HitRateTenths(1, 0) == 1000;
    assert NatToString(100) == "100";
  }

  /** The message of the error thrown for a non-ok response. */
  function HttpError(status: nat, statusText: string): string {
    "HTTP " + NatToString(status) + ": " + statusText
  }

  class Cache {
    /** `browser` from `$app/environment`: false during server-side rendering. */
    const inBrowser: bool
    /** `base` from `$app/paths`. */
    const base: string

    /** `currentCache`, in insertion order. */
    var entries: seq<Pair<Entry>>
    /** `currentStats`. */
    var hits: nat
    var misses: nat
    var size: int
    var totalSize: int

    /** The bookkeeping the source maintains: keys are unique, every entry records its own
        byte size, `size` is the resident count and `totalSize` the sum of resident sizes. */
    ghost predicate Consistent()
      reads this`entries, this`size, this`totalSize
    {
      && WellFormed(entries)
      && size == |entries|
      && totalSize == TotalBytes(entries)
    }

    /** The invariant every public operation keeps: consistent counters, and never more than
        CACHE_MAX_SIZE + 1 resident entries. */
    ghost predicate Valid()
      reads this`entries, this`size, this`totalSize
    {
      Consistent() && |entries| <= CACHE_MAX_SIZE + 1
    }

    constructor (inBrowser: bool, base: string)
      ensures Valid()
      ensures this.inBrowser == inBrowser && this.base == base
      ensures entries == [] && hits == 0 && misses == 0 && size == 0 && totalSize == 0
    {
      this.inBrowser := inBrowser;
      this.base := base;
      entries := [];
      hits, misses, size, totalSize := 0, 0, 0, 0;
    }

    /** `evictOldestEntries`. */
    method EvictOldestEntries()
      requires Consistent()
      modifies this
      ensures Consistent()
      ensures entries == Evicted(old(entries))
      ensures hits == old(hits) && misses == old(misses)
    {
      if |entries| <= CACHE_MAX_SIZE {
        return;
      }
      var sorted := SortByAge(entries);
      SortedIsDictionary(entries);
      var toRemove := |entries| - CACHE_MAX_SIZE + 1;
      var cache, total := DeleteInOrder(entries, sorted, toRemove, totalSize);
      EvictLoopDone(entries, sorted, KeySet(sorted[..toRemove]));
      entries, totalSize := cache, total;
      size := |entries|;
    }

    /** `getCachedFileContent(filePath, type)`. `now` is the clock when the lookup starts and
        `later` the clock after the fetch completes (the stored timestamp); `server` gives the
        network's answer for a URL. `requested` is the URL fetched, if any. */
    method Get(filePath: string, kind: string, now: int, later: int, server: string -> FetchResult)
      returns (result: Lookup, requested: Option<string>)
      requires Valid()
      modifies this
      ensures Valid()
      ensures !inBrowser ==>
        result == NotInBrowser && requested == None && entries == old(entries) &&
        hits == old(hits) && misses == old(misses)
      ensures inBrowser ==>
        var key := CacheKey(filePath, kind);
        var found := Find(old(entries), key);
        if found.Some? && !IsExpired(found.value, now) then
          // a hit: the stored content, one more hit, nothing else changes
          && result == Content(found.value.content)
          && requested == None
          && entries == old(entries)
          && hits == old(hits) + 1 && misses == old(misses)
        else
          // a miss: an expired entry is dropped first, then the artifact is fetched
          var kept := if found.Some? then Delete(old(entries), key) else old(entries);
          var url := ArtifactUrl(base, filePath, kind);
          && requested == Some(url)
          && hits == old(hits) && misses == old(misses) + 1
          && (result, entries) == MissOutcome(kept, key, later, server(url))
    {
      if !inBrowser {
        return NotInBrowser, None;
      }
      var key := CacheKey(filePath, kind);
      var found := Find(entries, key);
      if found.Some? {
        var entry := found.value;
        if IsExpired(entry, now) {
          DropExpired(key, entry);
        } else {
          hits := hits + 1;
          return Content(entry.content), None;
        }
      }
      misses := misses + 1;
      var url := ArtifactUrl(base, filePath, kind);
      requested := Some(url);
      result := Fetch(key, later, server(url));
    }

    /** Dropping an expired entry: the map loses its key, `size` goes down by one and
        `totalSize` by the entry's bytes. */
    method DropExpired(key: string, entry: Entry)
      requires Valid() && Pair(key, entry) in entries
      modifies this
      ensures Valid() && key !in KeySet(entries)
      ensures entries == Delete(old(entries), key)
      ensures size == old(size) - 1 && totalSize == old(totalSize) - ByteSize(entry.content)
      ensures hits == old(hits) && misses == old(misses)
    {
      DeleteWellFormed(entries, Pair(key, entry));
      entries := Delete(entries, key);
      size := size - 1;
      totalSize := totalSize - ByteSize(entry.content);
    }

    /** The fetch half of a miss: the network's answer becomes the result, and a successful
        answer no larger than CACHE_MAX_FILE_SIZE is stored. */
    method Fetch(key: string, later: int, response: FetchResult) returns (result: Lookup)
      requires Valid() && key !in KeySet(entries)
      modifies this
      ensures Valid()
      ensures (result, entries) == MissOutcome(old(entries), key, later, response)
      ensures hits == old(hits) && misses == old(misses)
    {
      match response {
        case Rejected(reason) =>
          result := Failed(reason);
        case Received(status, statusText, body) =>
          if !IsOk(status) {
            result := Failed(HttpError(status, statusText));
          } else {
            var contentSize := ByteSize(body);
            if contentSize <= CACHE_MAX_FILE_SIZE {
              Store(key, body, later);
            }
            result := Content(body);
          }
      }
    }

    /** The store step of a miss whose content is small enough: evict if over capacity,
        then `currentCache.set(cacheKey, {content, timestamp, size})` and update the counters. */
    method Store(key: string, content: string, timestamp: int)
      requires Valid() && key !in KeySet(entries)
      modifies this
      ensures Valid()
      ensures entries == Evicted(old(entries)) + [Pair(key, Entry(content, timestamp, ByteSize(content)))]
      ensures hits == old(hits) && misses == old(misses)
    {
      ghost var before := entries;
      EvictedCount(entries);
      EvictOldestEntries();
      var contentSize := ByteSize(content);
      var slot := Pair(key, Entry(content, timestamp, contentSize));
      AppendWellFormed(entries, slot);
      InsertAfterEvictionCount(before, slot);
      entries := entries + [slot];
      size := |entries|;
      totalSize := totalSize + contentSize;
    }

    /** `clearFileCache`. */
    method Clear()
      modifies this
      ensures Valid()
      ensures entries == [] && hits == 0 && misses == 0 && size == 0 && totalSize == 0
    {
      entries := [];
      hits, misses, size, totalSize := 0, 0, 0, 0;
    }

    /** `getCacheStats`: the four counters and the hit rate. */
    function GetStats(): (s: Stats)
      reads this
      requires Valid()
      ensures s.size == |entries| && s.totalSize == TotalBytes(entries)
      ensures s.hits == hits && s.misses == misses
      ensures s.hitRate == FixedOne(HitRateTenths(hits, misses))
    {
      Stats(hits, misses, size, totalSize, FixedOne(HitRateTenths(hits, misses)))
    }
  }
}
