/** The client-side loader of the search index (src/lib/stores/search.js): the index is fetched
    once and kept, the tags of its items are collected into a sorted list without duplicates,
    a failed load leaves empty stores and an error message, and clearing returns every piece of
    state to its initial value. */
module SearchStore {
  import opened Common

  // ---------------------------------------------------------------------------------------
  // JavaScript strings and their default sort order

  /** A UTF-16 code unit: the elements JavaScript compares strings by. */
  newtype CodeUnit = x: int | 0 <= x < 0x1_0000

  type JsString = seq<CodeUnit>

  /** `a` sorts before `b` under `Array.prototype.sort` without a comparator: code unit by code
      unit, a proper prefix first. */
  predicate Less(a: JsString, b: JsString) {
    if a == [] then b != []
    else b != [] && (a[0] < b[0] || (a[0] == b[0] && Less(a[1..], b[1..])))
  }

  lemma {:induction false} LessIrreflexive(a: JsString)
    ensures !Less(a, a)
  {
    if a != [] {
      LessIrreflexive(a[1..]);
    }
  }

  lemma {:induction false} LessTransitive(a: JsString, b: JsString, c: JsString)
    requires Less(a, b) && Less(b, c)
    ensures Less(a, c)
  {
    if a != [] && a[0] == b[0] && b[0] == c[0] {
      LessTransitive(a[1..], b[1..], c[1..]);
    }
  }

  /** Any two different strings are ordered one way, and never both ways. */
  lemma {:induction false} LessTotal(a: JsString, b: JsString)
    ensures a != b <==> Less(a, b) || Less(b, a)
    ensures !(Less(a, b) && Less(b, a))
  {
    if a != [] && b != [] && a[0] == b[0] {
      LessTotal(a[1..], b[1..]);
      if a[1..] == b[1..] {
        assert a == [a[0]] + a[1..] && b == [b[0]] + b[1..];
      }
    } else if a == [] {
      LessIrreflexive(a);
    }
  }

  /** Strictly increasing, so also free of duplicates. */
  predicate StrictlySorted(s: seq<JsString>) {
    forall i, j :: 0 <= i < j < |s| ==> Less(s[i], s[j])
  }

  predicate Distinct(s: seq<JsString>) {
    forall i, j :: 0 <= i < j < |s| ==> s[i] != s[j]
  }

  /** Two strictly sorted lists of the same strings are the same list: the sorted tag list does
      not depend on the order the tags were met in. */
  lemma {:induction false} SortedUnique(a: seq<JsString>, b: seq<JsString>)
    requires StrictlySorted(a) && StrictlySorted(b)
    requires forall t :: t in a <==> t in b
    ensures a == b
    decreases |a|
  {
    if b != [] {
      assert b[0] in a;
    }
    if a != [] {
      assert a[0] in b;
      FirstIsLeast(b, a[0]);
      FirstIsLeast(a, b[0]);
      LessTotal(a[0], b[0]);
      forall t ensures t in a[1..] <==> t in b[1..] {
        LessIrreflexive(t);
        if t in a[1..] {
          var k :| 0 <= k < |a[1..]| && a[1..][k] == t;
          assert Less(a[0], a[k + 1]);
          assert t in b;
          assert t != b[0];
        }
        if t in b[1..] {
          var k :| 0 <= k < |b[1..]| && b[1..][k] == t;
          assert Less(b[0], b[k + 1]);
          assert t in a;
          assert t != a[0];
        }
        assert t in a <==> t == a[0] || t in a[1..];
        assert t in b <==> t == b[0] || t in b[1..];
      }
      SortedUnique(a[1..], b[1..]);
      assert a == [a[0]] + a[1..];
      assert b == [b[0]] + b[1..];
    }
  }

  /** The head of a strictly sorted list is below every other element of it. */
  lemma FirstIsLeast(s: seq<JsString>, t: JsString)
    requires StrictlySorted(s) && t in s
    ensures t == s[0] || Less(s[0], t)
  {
  }

  // ---------------------------------------------------------------------------------------
  // Index items and their tags

  /** An item's `tags` property: missing or falsy, an array of strings, or some other truthy
      value, which has no `forEach`. */
  datatype Tags = NoTags | TagList(list: seq<JsString>) | NotAList

  /** One item of `search_index.json`; only the tags matter here. */
  datatype Item = Item(title: JsString, tags: Tags)

  function ItemTags(item: Item): set<JsString> {
    if item.tags.TagList? then set t | t in item.tags.list else {}
  }

  /** Every tag some item carries. */
  function TagSet(data: seq<Item>): set<JsString> {
    if data == [] then {} else TagSet(data[..|data| - 1]) + ItemTags(data[|data| - 1])
  }

  /** Some item's `tags` is truthy but not an array, so `forEach` throws a TypeError. */
  predicate BadTags(data: seq<Item>) {
    exists i :: 0 <= i < |data| && data[i].tags.NotAList?
  }

  /** Inserting a new string into a strictly sorted list at its place. */
  method Insert(sorted: seq<JsString>, x: JsString) returns (r: seq<JsString>)
    requires StrictlySorted(sorted) && x !in sorted
    ensures StrictlySorted(r)
    ensures |r| == |sorted| + 1
    ensures forall t :: t in r <==> t in sorted || t == x
  {
    var i := 0;
    while i < |sorted| && Less(sorted[i], x)
      invariant 0 <= i <= |sorted|
      invariant forall p :: 0 <= p < i ==> Less(sorted[p], x)
    {
      i := i + 1;
    }
    if i < |sorted| {
      LessTotal(sorted[i], x);
      forall q | i <= q < |sorted| ensures Less(x, sorted[q]) {
        if q > i {
          LessTransitive(x, sorted[i], sorted[q]);
        }
      }
    }
    r := sorted[..i] + [x] + sorted[i..];
    forall p, q | 0 <= p < q < |r| ensures Less(r[p], r[q]) {
      if q < i {
        assert r[p] == sorted[p] && r[q] == sorted[q];
      } else if q == i {
        assert r[p] == sorted[p];
      } else if p < i {
        assert r[p] == sorted[p] && r[q] == sorted[q - 1];
        LessTransitive(sorted[p], x, sorted[q - 1]);
      } else if p == i {
        assert r[q] == sorted[q - 1];
      } else {
        assert r[p] == sorted[p - 1] && r[q] == sorted[q - 1];
      }
    }
    assert forall t :: t in r <==> t in sorted[..i] || t == x || t in sorted[i..];
    assert sorted == sorted[..i] + sorted[i..];
  }

  /** `Array.from(tagSet).sort()` for the distinct strings of a Set: the same strings, strictly
      increasing. */
  method Sort(xs: seq<JsString>) returns (sorted: seq<JsString>)
    requires Distinct(xs)
    ensures StrictlySorted(sorted)
    ensures |sorted| == |xs|
    ensures forall t :: t in sorted <==> t in xs
  {
    sorted := [];
    var i := 0;
    while i < |xs|
      invariant 0 <= i <= |xs|
      invariant StrictlySorted(sorted) && |sorted| == i
      invariant forall t :: t in sorted <==> t in xs[..i]
    {
      assert xs[i] !in xs[..i];
      sorted := Insert(sorted, xs[i]);
      assert xs[..i + 1] == xs[..i] + [xs[i]];
      i := i + 1;
    }
    assert xs[..|xs|] == xs;
  }

  /** The tag extraction of `loadSearchIndex`: every tag of every item goes into a Set, in the
      order met, and the Set is sorted. None when an item's `tags` has no `forEach`. */
  method ExtractTags(data: seq<Item>) returns (r: Option<seq<JsString>>)
    ensures r.None? <==> BadTags(data)
    ensures r.Some? ==> StrictlySorted(r.value)
    ensures r.Some? ==> forall t :: t in r.value <==> t in TagSet(data)
  {
    var tagSet: seq<JsString> := [];
    var i := 0;
    while i < |data|
      invariant 0 <= i <= |data|
      invariant forall k :: 0 <= k < i ==> !data[k].tags.NotAList?
      invariant Distinct(tagSet)
      invariant forall t :: t in tagSet <==> t in TagSet(data[..i])
    {
      assert data[..i + 1][..i] == data[..i];
      match data[i].tags {
        case NoTags =>
        case NotAList =>
          return None;
        case TagList(list) =>
          var j := 0;
          while j < |list|
            invariant 0 <= j <= |list|
            invariant Distinct(tagSet)
            invariant forall t :: t in tagSet <==> t in TagSet(data[..i]) || t in list[..j]
          {
            if list[j] !in tagSet {
              tagSet := tagSet + [list[j]];
            }
            assert list[..j + 1] == list[..j] + [list[j]];
            j := j + 1;
          }
          assert list[..|list|] == list;
      }
      i := i + 1;
    }
    assert data[..|data|] == data;
    var sorted := Sort(tagSet);
    r := Some(sorted);
  }

  // ---------------------------------------------------------------------------------------
  // The loader

  /** What `response.json()` gives: the items, or a parse failure with its message. */
  datatype JsonBody = Parsed(items: seq<Item>) | Malformed(message: string)

  /** What `fetch` of the index gives: a rejection with its message, or a response. */
  datatype FetchOutcome = Rejected(message: string) | Received(status: nat, body: JsonBody)

  /** How a call of `loadSearchIndex` settles. */
  datatype LoadResult = Returned(items: seq<Item>) | Thrown(message: string)

  /** The message of the TypeError raised by `tags.forEach` on a value without it. */
  const TAGS_ERROR: string := "item.tags.forEach is not a function"

  /** The message of a non-ok response. */
  function HttpErrorMessage(status: nat): string {
    "Failed to fetch search index: " + NatToString(status)
  }

  /** The module state of search.js: the cache and pending-promise variables and the four
      stores. */
  class SearchIndexStore {
    var cache: Option<seq<Item>>
    var pending: bool
    var index: seq<Item>
    var availableTags: seq<JsString>
    var loaded: bool
    var error: Option<string>

    /** Every field at its initial value. */
    predicate Initial()
      reads this
    {
      cache == None && !pending && index == [] && availableTags == [] && !loaded
      && error == None
    }

    /** Between sequential calls a pending promise exists only once data is cached. */
    predicate Valid()
      reads this
    {
      pending ==> cache.Some?
    }

    constructor ()
      ensures Initial() && Valid()
    {
      cache, pending, index, availableTags, loaded, error := None, false, [], [], false, None;
    }

    /** The failure path of the load: stores emptied, the message recorded, the promise
        dropped so the next call fetches again. */
    method Fail(message: string) returns (result: LoadResult)
      modifies this
      ensures result == Thrown(message)
      ensures error == Some(message) && index == [] && availableTags == [] && !loaded
      ensures !pending && cache == old(cache)
    {
      error := Some(message);
      index := [];
      availableTags := [];
      loaded := false;
      pending := false;
      result := Thrown(message);
    }

    /** `loadSearchIndex()`, called when no earlier call is still in flight. `inBrowser` is
        `browser` of the app environment; `response` is what fetching the index gives, and
        `fetched` says whether it was fetched at all. */
    method Load(inBrowser: bool, response: FetchOutcome) returns (result: LoadResult, fetched: bool)
      requires Valid()
      modifies this
      ensures Valid()
      ensures old(cache).Some? ==>
        !fetched && result == Returned(old(cache).value) && index == old(cache).value
        && cache == old(cache) && pending == old(pending) && availableTags == old(availableTags)
        && loaded == old(loaded) && error == old(error)
      ensures old(cache).None? && !inBrowser ==>
        !fetched && result == Returned([]) && cache == old(cache) && pending == old(pending)
        && index == old(index) && availableTags == old(availableTags) && loaded == old(loaded)
        && error == old(error)
      ensures old(cache).None? && inBrowser ==> fetched
      ensures old(cache).None? && inBrowser && result.Returned? ==>
        response.Received? && IsOk(response.status) && response.body.Parsed?
        && !BadTags(response.body.items)
        && result.items == response.body.items && cache == Some(result.items)
        && index == result.items && pending && loaded && error == None
        && StrictlySorted(availableTags)
        && (forall t :: t in availableTags <==> t in TagSet(result.items))
      ensures old(cache).None? && inBrowser && result.Thrown? ==>
        !pending && !loaded && index == [] && availableTags == [] && error == Some(result.message)
        && match response
           case Rejected(message) => result.message == message && cache == None
           case Received(status, body) =>
             if !IsOk(status) then result.message == HttpErrorMessage(status) && cache == None
             else match body
                  case Malformed(message) => result.message == message && cache == None
                  case Parsed(items) =>
                    BadTags(items) && result.message == TAGS_ERROR && cache == Some(items)
    {
      if cache.Some? {
        index := cache.value;
        return Returned(cache.value), false;
      }
      if !inBrowser {
        return Returned([]), false;
      }
      fetched := true;
      pending := true;
      loaded := false;
      error := None;
      match response {
        case Rejected(message) =>
          result := Fail(message);
        case Received(status, body) =>
          if !IsOk(status) {
            result := Fail(HttpErrorMessage(status));
          } else {
            match body {
              case Malformed(message) =>
                result := Fail(message);
              case Parsed(data) =>
                cache := Some(data);
                index := data;
                var tags := ExtractTags(data);
                if tags.None? {
                  result := Fail(TAGS_ERROR);
                } else {
                  availableTags := tags.value;
                  loaded := true;
                  result := Returned(data);
                }
            }
          }
      }
    }

    /** `clearSearchIndexCache()`. */
    method Clear()
      modifies this
      ensures Initial() && Valid()
    {
      cache, pending, index, availableTags, loaded, error := None, false, [], [], false, None;
    }
  }

  /** The tag list a successful load publishes is the one strictly sorted list of the items'
      tags: the same for any order of the items and of the tags within them. */
  lemma TagsDetermined(data: seq<Item>, data': seq<Item>, tags: seq<JsString>,
                       tags': seq<JsString>)
    requires TagSet(data) == TagSet(data')
    requires StrictlySorted(tags) && (forall t :: t in tags <==> t in TagSet(data))
    requires StrictlySorted(tags') && (forall t :: t in tags' <==> t in TagSet(data'))
    ensures tags == tags'
  {
    SortedUnique(tags, tags');
  }
}
