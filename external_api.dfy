/** The Google Books client: normalising an external volume into a catalogue
    book, and the time-limited cache in front of the search endpoint. */
module ExternalApi {
  import opened Wrappers
  import opened Schema
  import opened JsArrays
  import opened JsStrings

  /** One hour, in milliseconds. */
  const CacheTtl := 1000 * 60 * 60
  /** Added to a volume's position when its id has no usable digits. */
  const FallbackIdBase := 1000000
  /** The total a cache hit reports for a non-empty page. */
  const CacheHitTotal := 1000000
  /** Digits of an external id that make up a book id. */
  const IdDigits := 9
  const PopularQuery := "subject:fiction&orderBy=relevance"

  const DefaultTitle := "Unknown Title"
  const DefaultAuthor := "Unknown Author"
  const DefaultDescription := "No description available"
  const DefaultCover := "/placeholder-cover.jpg"
  const DefaultGenres := ["Uncategorized"]
  const DefaultPublished := "Unknown"
  const DefaultLanguage := "en"

  datatype IndustryIdentifier = IndustryIdentifier(kind: string, identifier: string)

  /** The volume fields the mapping reads; every one may be missing. The
      average rating is given in tenths. */
  datatype VolumeInfo = VolumeInfo(
    title: Option<string>,
    authors: Option<seq<string>>,
    description: Option<string>,
    thumbnail: Option<string>,
    categories: Option<seq<string>>,
    averageRatingTenths: Option<nat>,
    pageCount: Option<int>,
    publishedDate: Option<string>,
    industryIdentifiers: Option<seq<IndustryIdentifier>>,
    language: Option<string>)

  datatype Volume = Volume(id: string, volumeInfo: VolumeInfo)

  // ===== mapGoogleBookToBook =====

  function IsDigitChar(): char -> bool
  {
    c => IsDigit(c)
  }

  /** `s.replace(/\D/g, "")`. */
  function KeepDigits(s: string): (r: string)
    ensures AllDigits(r)
  {
    var r := Filter(s, IsDigitChar());
    FilterMembers(s, IsDigitChar());
    assert forall i :: 0 <= i < |r| ==> r[i] in r;
    r
  }

  /** Stripping keeps every digit, in order and as often as it occurs, and
      nothing else. */
  lemma KeepDigitsSpec(s: string)
    ensures IsSubsequence(KeepDigits(s), s)
    ensures forall c :: multiset(KeepDigits(s))[c] == if IsDigit(c) then multiset(s)[c] else 0
  {
    FilterOrder(s, IsDigitChar());
    FilterCount(s, IsDigitChar());
  }

  /** The first nine digits of an external id. */
  function IdPrefix(externalId: string): (r: string)
    ensures AllDigits(r) && |r| <= IdDigits
  {
    var ds := KeepDigits(externalId);
    ds[..if |ds| < IdDigits then |ds| else IdDigits]
  }

  /** The book id of the volume at `index` in its response: the number its
      first nine digits spell, or `index + 1000000` when that is `NaN` or 0. */
  function VolumeId(externalId: string, index: int): int
  {
    match ParseInt(IdPrefix(externalId))
    case Some(v) => if v != 0 then v else index + FallbackIdBase
    case None => index + FallbackIdBase
  }

  /** An id either comes from the digits, and then lies in 1..999999999, or
      is the fallback for the volume's position. */
  lemma VolumeIdSpec(externalId: string, index: int)
    ensures var v := DigitsValue(IdPrefix(externalId));
      if v != 0 then VolumeId(externalId, index) == v && 1 <= v < 1000000000
      else VolumeId(externalId, index) == index + FallbackIdBase
  {
    var ds := IdPrefix(externalId);
    DigitsValueBound(ds);
    assert Pow10(|ds|) <= Pow10(IdDigits) by {
      Pow10Monotone(|ds|, IdDigits);
    }
    if ds != [] {
      ParseIntOfDigits(ds);
    }
  }

  lemma {:induction false} Pow10Monotone(m: nat, n: nat)
    requires m <= n
    ensures Pow10(m) <= Pow10(n)
  {
    if m < n {
      Pow10Monotone(m, n - 1);
    }
  }

  function IsIsbn(): IndustryIdentifier -> bool
  {
    (i: IndustryIdentifier) => i.kind == "ISBN_13" || i.kind == "ISBN_10"
  }

  /** The identifier of the first ISBN-13 or ISBN-10 entry, whichever comes
      first; "" when there is none. */
  function PickIsbn(ids: Option<seq<IndustryIdentifier>>): (r: string)
    ensures ids.None? ==> r == ""
    ensures ids.Some? ==>
      || (r == "" && forall i :: 0 <= i < |ids.value| ==> !IsIsbn()(ids.value[i]))
      || exists i :: && 0 <= i < |ids.value| && IsIsbn()(ids.value[i]) && r == ids.value[i].identifier
                     && forall j :: 0 <= j < i ==> !IsIsbn()(ids.value[j])
  {
    match ids
    case None => ""
    case Some(s) =>
      var i := FindIndex(s, IsIsbn());
      if i < 0 then "" else s[i].identifier
  }

  /** `value || fallback` for a string that may be missing. */
  function OrDefault(value: Option<string>, fallback: string): string
  {
    if value.Some? && value.value != "" then value.value else fallback
  }

  function FirstAuthor(authors: Option<seq<string>>): string
  {
    if authors.Some? && |authors.value| > 0 then OrDefault(Some(authors.value[0]), DefaultAuthor)
    else DefaultAuthor
  }

  /** The catalogue book made from the volume at `index` of a response. */
  function MapVolumeToBook(v: Volume, index: int): Book
  {
    BookFromInfo(VolumeId(v.id, index), v.volumeInfo)
  }

  /** The fields taken from the volume's `volumeInfo`, under a given id. */
  function BookFromInfo(id: int, info: VolumeInfo): Book
  {
    Book(
      id,
      OrDefault(info.title, DefaultTitle),
      FirstAuthor(info.authors),
      OrDefault(info.description, DefaultDescription),
      OrDefault(info.thumbnail, DefaultCover),
      info.categories.GetOr(DefaultGenres),
      TenthsToString(info.averageRatingTenths.GetOr(0)),
      info.pageCount.GetOr(0),
      OrDefault(info.publishedDate, DefaultPublished),
      PickIsbn(info.industryIdentifiers),
      OrDefault(info.language, DefaultLanguage))
  }

  /** Fields the volume gives (and that are not empty) are kept. */
  lemma MapVolumeKeeps(v: Volume, index: int)
    ensures var b := MapVolumeToBook(v, index); var info := v.volumeInfo;
      && (info.title.Some? && info.title.value != "" ==> b.title == info.title.value)
      && (info.authors.Some? && |info.authors.value| > 0 && info.authors.value[0] != "" ==>
            b.author == info.authors.value[0])
      && (info.description.Some? && info.description.value != "" ==> b.description == info.description.value)
      && (info.thumbnail.Some? && info.thumbnail.value != "" ==> b.coverImage == info.thumbnail.value)
      && (info.categories.Some? ==> b.genres == info.categories.value)
      && (info.pageCount.Some? ==> b.pages == info.pageCount.value)
      && (info.publishedDate.Some? && info.publishedDate.value != "" ==> b.published == info.publishedDate.value)
      && (info.language.Some? && info.language.value != "" ==> b.language == info.language.value)
  {
  }

  /** The rating text reads back as the volume's rating, 0 when it has none.
      Stated for the fields the volume's `volumeInfo` gives, whatever the id. */
  lemma MapVolumeRating(id: int, info: VolumeInfo)
    ensures ParseDecimal(BookFromInfo(id, info).rating) == Some(info.averageRatingTenths.GetOr(0) as real / 10.0)
  {
    TenthsRoundTrip(info.averageRatingTenths.GetOr(0));
  }

  /** A volume that gives nothing maps to the defaults; an empty category list
      is kept as it is. */
  lemma MapVolumeDefaults(v: Volume, index: int)
    requires var info := v.volumeInfo;
      && info.title.None? && info.authors.None? && info.description.None? && info.thumbnail.None?
      && info.averageRatingTenths.None? && info.pageCount.None? && info.publishedDate.None?
      && info.industryIdentifiers.None? && info.language.None?
    ensures var b := MapVolumeToBook(v, index);
      && b.title == DefaultTitle && b.author == DefaultAuthor && b.description == DefaultDescription
      && b.coverImage == DefaultCover && b.pages == 0 && b.published == DefaultPublished
      && b.isbn == "" && b.language == DefaultLanguage && b.rating == "0"
      && (v.volumeInfo.categories.None? ==> b.genres == ["Uncategorized"])
      && (v.volumeInfo.categories == Some([]) ==> b.genres == [])
  {
    assert TenthsToString(0) == "0";
  }

  /** `items.map(mapGoogleBookToBook)`: each volume with its position. */
  function MapItems(items: seq<Volume>): (r: seq<Book>)
    ensures |r| == |items|
    ensures forall i :: 0 <= i < |items| ==> r[i] == MapVolumeToBook(items[i], i)
  {
    seq(|items|, i requires 0 <= i < |items| => MapVolumeToBook(items[i], i))
  }

  /** Two volumes of one response that both fall back get different ids. */
  lemma FallbackIdsDistinct(items: seq<Volume>, i: nat, j: nat)
    requires i < j < |items|
    requires DigitsValue(IdPrefix(items[i].id)) == 0 && DigitsValue(IdPrefix(items[j].id)) == 0
    ensures MapItems(items)[i].id != MapItems(items)[j].id
  {
    VolumeIdSpec(items[i].id, i);
    VolumeIdSpec(items[j].id, j);
  }

  /** A fallback id and an id from digits can coincide: an external id whose
      digits spell `j + 1000000` gets the id of a digitless volume at `j`. */
  lemma FallbackMayCollideWithDigits(a: string, i: int, b: string, j: int)
    requires DigitsValue(IdPrefix(a)) == j + FallbackIdBase && j >= 0
    requires DigitsValue(IdPrefix(b)) == 0
    ensures VolumeId(a, i) == VolumeId(b, j)
  {
    VolumeIdSpec(a, i);
    VolumeIdSpec(b, j);
  }

  // ===== searchGoogleBooks =====

  datatype CacheEntry = CacheEntry(timestamp: int, data: seq<Book>)

  datatype SearchResult = SearchResult(books: seq<Book>, totalItems: int)

  /** What the request brought back: a failure of any kind (network, status,
      body), or a decoded body whose `items` and `totalItems` may be missing. */
  datatype FetchOutcome = FetchFailed | Fetched(items: Option<seq<Volume>>, totalItems: Option<int>)

  /** The new cache along with the answer. */
  datatype SearchStepResult = SearchStepResult(result: SearchResult, cache: map<string, CacheEntry>)

  /** `${query}_${startIndex}`. */
  function CacheKey(query: string, startIndex: int): string
  {
    query + "_" + IntToString(startIndex)
  }

  /** The position of the last `c` in `s`, or -1. */
  function LastIndexOf(s: string, c: char): (i: int)
    ensures -1 <= i < |s|
  {
    if s == [] then -1
    else if s[|s| - 1] == c then |s| - 1
    else LastIndexOf(s[..|s| - 1], c)
  }

  /** The separator of a key is its last '_': no offset text contains one. */
  lemma {:induction false} LastUnderscoreOfKey(q: string, t: string)
    requires forall i :: 0 <= i < |t| ==> t[i] != '_'
    ensures LastIndexOf(q + "_" + t, '_') == |q|
    decreases |t|
  {
    var k := q + "_" + t;
    if t != [] {
      var t' := t[..|t| - 1];
      assert k[..|k| - 1] == q + "_" + t';
      LastUnderscoreOfKey(q, t');
    }
  }

  /** Different searches never share a cache entry. */
  lemma CacheKeyInjective(q1: string, s1: int, q2: string, s2: int)
    requires CacheKey(q1, s1) == CacheKey(q2, s2)
    ensures q1 == q2 && s1 == s2
  {
    var k := CacheKey(q1, s1);
    LastUnderscoreOfKey(q1, IntToString(s1));
    LastUnderscoreOfKey(q2, IntToString(s2));
    assert q1 == k[..|q1|] == q2;
    assert IntToString(s1) == k[|q1| + 1..] == IntToString(s2);
    ParseIntRoundTrip(s1);
    ParseIntRoundTrip(s2);
  }

  /** An entry is fresh while less than an hour old. */
  predicate IsHit(cache: map<string, CacheEntry>, key: string, now: int)
  {
    key in cache && now - cache[key].timestamp < CacheTtl
  }

  /** One `searchGoogleBooks` call: `requestedAt` is the clock when the call
      starts, `receivedAt` when the response is stored, `fetch` what the
      request would bring back (unused on a hit). */
  function SearchStep(cache: map<string, CacheEntry>, query: string, startIndex: int,
                      requestedAt: int, receivedAt: int, fetch: FetchOutcome): SearchStepResult
  {
    var key := CacheKey(query, startIndex);
    if IsHit(cache, key, requestedAt) then
      var data := cache[key].data;
      SearchStepResult(SearchResult(data, if |data| > 0 then CacheHitTotal else 0), cache)
    else
      match fetch
      case FetchFailed => SearchStepResult(SearchResult([], 0), cache)
      case Fetched(items, total) =>
        var books := MapItems(items.GetOr([]));
        var totalItems := if total.Some? && total.value != 0 then total.value else |books|;
        SearchStepResult(SearchResult(books, totalItems), cache[key := CacheEntry(receivedAt, books)])
  }

  /** A hit answers from the cache, whatever the network would say, and
      reports 1000000 or 0. */
  lemma SearchHit(cache: map<string, CacheEntry>, query: string, startIndex: int,
                  requestedAt: int, receivedAt: int, fetch: FetchOutcome)
    requires IsHit(cache, CacheKey(query, startIndex), requestedAt)
    ensures var r := SearchStep(cache, query, startIndex, requestedAt, receivedAt, fetch);
      && r.cache == cache
      && r.result.books == cache[CacheKey(query, startIndex)].data
      && (r.result.totalItems == CacheHitTotal <==> r.result.books != [])
      && (r.result.totalItems == 0 <==> r.result.books == [])
  {
  }

  /** A failed request answers nothing and leaves the cache as it was. */
  lemma SearchFailure(cache: map<string, CacheEntry>, query: string, startIndex: int,
                      requestedAt: int, receivedAt: int)
    requires !IsHit(cache, CacheKey(query, startIndex), requestedAt)
    ensures SearchStep(cache, query, startIndex, requestedAt, receivedAt, FetchFailed)
            == SearchStepResult(SearchResult([], 0), cache)
  {
  }

  /** A fetched page is mapped, returned and stored under its key with the
      time it arrived; no other entry changes. */
  lemma SearchStores(cache: map<string, CacheEntry>, query: string, startIndex: int,
                     requestedAt: int, receivedAt: int, items: Option<seq<Volume>>, total: Option<int>)
    requires !IsHit(cache, CacheKey(query, startIndex), requestedAt)
    ensures var r := SearchStep(cache, query, startIndex, requestedAt, receivedAt, Fetched(items, total));
      var key := CacheKey(query, startIndex);
      && r.result.books == MapItems(items.GetOr([]))
      && (items.None? ==> r.result.books == [])
      && (total.Some? && total.value != 0 ==> r.result.totalItems == total.value)
      && (total.None? || total == Some(0) ==> r.result.totalItems == |r.result.books|)
      && r.cache.Keys == cache.Keys + {key}
      && r.cache[key] == CacheEntry(receivedAt, r.result.books)
      && forall k :: k in cache && k != key ==> r.cache[k] == cache[k]
  {
  }

  /** One `searchGoogleBooks` call, with the clock readings and the network's
      answer it meets. */
  datatype SearchCall = SearchCall(query: string, startIndex: int, requestedAt: int,
                                   receivedAt: int, fetch: FetchOutcome)

  /** The cache after a run of searches, made one after the other. */
  function RunSearches(cache: map<string, CacheEntry>, calls: seq<SearchCall>): map<string, CacheEntry>
    decreases |calls|
  {
    if calls == [] then cache
    else
      var c := calls[0];
      RunSearches(SearchStep(cache, c.query, c.startIndex, c.requestedAt, c.receivedAt, c.fetch).cache,
                  calls[1..])
  }

  /** Searches under other keys leave an entry exactly as it was. */
  lemma {:induction false} EntrySurvives(cache: map<string, CacheEntry>, key: string, calls: seq<SearchCall>)
    requires forall k :: 0 <= k < |calls| ==> CacheKey(calls[k].query, calls[k].startIndex) != key
    ensures (key in RunSearches(cache, calls)) == (key in cache)
    ensures key in cache ==> RunSearches(cache, calls)[key] == cache[key]
    decreases |calls|
  {
    if calls != [] {
      var c := calls[0];
      var next := SearchStep(cache, c.query, c.startIndex, c.requestedAt, c.receivedAt, c.fetch).cache;
      assert CacheKey(c.query, c.startIndex) != key;
      assert (key in next) == (key in cache);
      assert key in cache ==> next[key] == cache[key];
      assert forall k :: 0 <= k < |calls[1..]| ==> calls[1..][k] == calls[k + 1];
      EntrySurvives(next, key, calls[1..]);
    }
  }

  /** Asking again within the hour gives the same books without a request,
      however many searches for other pages or other queries came between. */
  lemma SearchReplay(cache: map<string, CacheEntry>, query: string, startIndex: int,
                     t0: int, t1: int, items: Option<seq<Volume>>, total: Option<int>,
                     between: seq<SearchCall>, t4: int, t5: int, later: FetchOutcome)
    requires !IsHit(cache, CacheKey(query, startIndex), t0)
    requires forall k :: 0 <= k < |between| ==>
      between[k].query != query || between[k].startIndex != startIndex
    requires t4 - t1 < CacheTtl
    ensures var first := SearchStep(cache, query, startIndex, t0, t1, Fetched(items, total));
      var mid := RunSearches(first.cache, between);
      var again := SearchStep(mid, query, startIndex, t4, t5, later);
      again.result.books == first.result.books && again.cache == mid
  {
    var key := CacheKey(query, startIndex);
    forall k | 0 <= k < |between|
      ensures CacheKey(between[k].query, between[k].startIndex) != key
    {
      if CacheKey(between[k].query, between[k].startIndex) == key {
        CacheKeyInjective(between[k].query, between[k].startIndex, query, startIndex);
      }
    }
    var first := SearchStep(cache, query, startIndex, t0, t1, Fetched(items, total));
    EntrySurvives(first.cache, key, between);
  }

  /** Once an hour has passed the entry is stale and the request is made. */
  lemma SearchExpires(cache: map<string, CacheEntry>, query: string, startIndex: int,
                      requestedAt: int, receivedAt: int, fetch: FetchOutcome)
    requires CacheKey(query, startIndex) in cache
    requires requestedAt - cache[CacheKey(query, startIndex)].timestamp >= CacheTtl
    ensures fetch.FetchFailed? ==>
      SearchStep(cache, query, startIndex, requestedAt, receivedAt, fetch).result == SearchResult([], 0)
    ensures fetch.Fetched? ==>
      SearchStep(cache, query, startIndex, requestedAt, receivedAt, fetch).result.books
        == MapItems(fetch.items.GetOr([]))
  {
  }

  /** The search endpoint along with the module-level cache it keeps. */
  class GoogleBooksClient {
    var cache: map<string, CacheEntry>

    constructor ()
      ensures cache == map[]
    {
      cache := map[];
    }

    method SearchGoogleBooks(query: string, startIndex: int := 0, requestedAt: int, receivedAt: int,
                             fetch: FetchOutcome) returns (r: SearchResult)
      modifies this`cache
      ensures var step := SearchStep(old(cache), query, startIndex, requestedAt, receivedAt, fetch);
        r == step.result && cache == step.cache
    {
      var key := CacheKey(query, startIndex);
      if key in cache && requestedAt - cache[key].timestamp < CacheTtl {
        var data := cache[key].data;
        return SearchResult(data, if |data| > 0 then CacheHitTotal else 0);
      }
      if fetch.FetchFailed? {
        return SearchResult([], 0);
      }
      var books := if fetch.items.Some? then MapItems(fetch.items.value) else [];
      cache := cache[key := CacheEntry(receivedAt, books)];
      var totalItems := if fetch.totalItems.Some? && fetch.totalItems.value != 0 then fetch.totalItems.value
                        else |books|;
      r := SearchResult(books, totalItems);
    }

    /** A category is the search `subject:<category>`. */
    method GetBooksByCategory(category: string, startIndex: int := 0, requestedAt: int, receivedAt: int,
                              fetch: FetchOutcome) returns (r: SearchResult)
      modifies this`cache
      ensures var step := SearchStep(old(cache), "subject:" + category, startIndex, requestedAt, receivedAt, fetch);
        r == step.result && cache == step.cache
    {
      r := SearchGoogleBooks("subject:" + category, startIndex, requestedAt, receivedAt, fetch);
    }

    /** The first `limit` books of the fixed fiction search at offset 0. */
    method GetPopularBooks(limit: int := 40, requestedAt: int, receivedAt: int, fetch: FetchOutcome)
      returns (r: seq<Book>)
      modifies this`cache
      ensures var step := SearchStep(old(cache), PopularQuery, 0, requestedAt, receivedAt, fetch);
        r == SliceTo(step.result.books, limit) && cache == step.cache
      ensures limit >= 0 ==> |r| <= limit
    {
      var result := SearchGoogleBooks(PopularQuery, 0, requestedAt, receivedAt, fetch);
      r := SliceTo(result.books, limit);
    }
  }

  /** What the detail request brought back: a failure, a body that is not a
      volume, or a volume. */
  datatype DetailOutcome = DetailFailed | DetailMalformed | DetailFetched(volume: Volume)

  /** `getBookDetails`: the volume mapped at position 0, or nothing. */
  function GetBookDetails(fetch: DetailOutcome): (r: Option<Book>)
    ensures r.Some? <==> fetch.DetailFetched?
    ensures fetch.DetailFetched? ==> r.value == MapVolumeToBook(fetch.volume, 0)
  {
    match fetch
    case DetailFetched(v) => Some(MapVolumeToBook(v, 0))
    case _ => None
  }
}
