/** The in-memory store behind the server: the seeded catalogue, per-user
    favourites, preferences, reviews and reading progress, with the id
    counters that number new records. */
module Storage {
  import opened Wrappers
  import opened Schema
  import opened JsArrays
  import opened JsStrings

  const ReviewNotFound: string := "Review not found"

  // ===== Catalogue queries, over the books in insertion order =====

  /** Case-insensitive substring match of the query on title or author. */
  predicate MatchesQuery(b: Book, query: string)
  {
    var q := ToLowerCase(query);
    Includes(ToLowerCase(b.title), q) || Includes(ToLowerCase(b.author), q)
  }

  function QueryMatcher(query: string): Book -> bool
  {
    b => MatchesQuery(b, query)
  }

  /** `searchBooks(query)`. */
  function SearchIn(bs: seq<Book>, query: string): seq<Book>
  {
    Filter(bs, QueryMatcher(query))
  }

  /** Search keeps, in insertion order, exactly the books whose lower-cased
      title or author contains the lower-cased query. */
  lemma SearchSpec(bs: seq<Book>, query: string)
    ensures IsSubsequence(SearchIn(bs, query), bs)
    ensures forall b :: b in SearchIn(bs, query) <==> b in bs && MatchesQuery(b, query)
    ensures forall b :: multiset(SearchIn(bs, query))[b] ==
                        if MatchesQuery(b, query) then multiset(bs)[b] else 0
  {
    FilterOrder(bs, QueryMatcher(query));
    FilterMembers(bs, QueryMatcher(query));
    FilterCount(bs, QueryMatcher(query));
  }

  /** Every title contains the empty query, so searching for "" returns every book. */
  lemma SearchEmptyQueryIsAll(bs: seq<Book>)
    ensures SearchIn(bs, "") == bs
  {
    forall i | 0 <= i < |bs| ensures QueryMatcher("")(bs[i]) {
      assert ToLowerCase("") == "";
      IncludesEmpty(ToLowerCase(bs[i].title));
    }
    FilterAll(bs, QueryMatcher(""));
  }

  /** Some requested genre is one of the book's genres (case-sensitive). */
  predicate HasAnyGenre(b: Book, genres: seq<string>)
  {
    exists g :: g in genres && g in b.genres
  }

  function GenreMatcher(genres: seq<string>): Book -> bool
  {
    b => HasAnyGenre(b, genres)
  }

  /** `filterBooksByGenres(genres)`. */
  function FilterByGenres(bs: seq<Book>, genres: seq<string>): seq<Book>
  {
    if |genres| == 0 then bs else Filter(bs, GenreMatcher(genres))
  }

  /** An empty genre list returns every book; otherwise the books carrying at
      least one requested genre, in insertion order. */
  lemma FilterByGenresSpec(bs: seq<Book>, genres: seq<string>)
    ensures genres == [] ==> FilterByGenres(bs, genres) == bs
    ensures IsSubsequence(FilterByGenres(bs, genres), bs)
    ensures genres != [] ==>
      forall b :: multiset(FilterByGenres(bs, genres))[b] ==
                  if HasAnyGenre(b, genres) then multiset(bs)[b] else 0
    ensures genres != [] ==>
      forall b :: b in FilterByGenres(bs, genres) <==> b in bs && HasAnyGenre(b, genres)
  {
    FilterOrder(bs, GenreMatcher(genres));
    FilterMembers(bs, GenreMatcher(genres));
    FilterCount(bs, GenreMatcher(genres));
    if genres == [] {
      SubsequenceOfItself(bs);
    }
  }

  lemma {:induction false} SubsequenceOfItself<T>(s: seq<T>)
    ensures IsSubsequence(s, s)
  {
    if s != [] {
      SubsequenceOfItself(s[1..]);
    }
  }

  /** Some genre of the book equals the category, ignoring case. */
  predicate InCategory(b: Book, category: string)
  {
    exists g :: g in b.genres && ToLowerCase(g) == ToLowerCase(category)
  }

  function CategoryMatcher(category: string): Book -> bool
  {
    b => InCategory(b, category)
  }

  /** `getBooksByCategory(category)`. */
  function ByCategory(bs: seq<Book>, category: string): seq<Book>
  {
    Filter(bs, CategoryMatcher(category))
  }

  /** The category view keeps, in order, exactly the books having a genre equal
      to the category up to case. */
  lemma ByCategorySpec(bs: seq<Book>, category: string)
    ensures IsSubsequence(ByCategory(bs, category), bs)
    ensures forall b :: b in ByCategory(bs, category) <==> b in bs && InCategory(b, category)
    ensures forall b :: multiset(ByCategory(bs, category))[b] ==
                        if InCategory(b, category) then multiset(bs)[b] else 0
  {
    FilterOrder(bs, CategoryMatcher(category));
    FilterMembers(bs, CategoryMatcher(category));
    FilterCount(bs, CategoryMatcher(category));
  }

  /** Category browsing ignores case, genre filtering does not. */
  lemma CategoryIgnoresCaseGenresDoNot(b: Book)
    requires b.genres == ["Fiction"]
    ensures InCategory(b, "fiction")
    ensures !HasAnyGenre(b, ["fiction"])
  {
    assert ToLowerCase("Fiction") == ToLowerCase("fiction");
    assert "fiction" != "Fiction";
  }

  function HasBookId(id: int): Book -> bool
  {
    (b: Book) => b.id == id
  }

  /** `books.get(id)`: the book with that id, if any. */
  function FindBook(bs: seq<Book>, id: int): (r: Option<Book>)
    ensures r.Some? <==> exists i :: 0 <= i < |bs| && bs[i].id == id
    ensures r.Some? ==> r.value in bs && r.value.id == id
  {
    var i := FindIndex(bs, HasBookId(id));
    if i < 0 then None
    else Some(bs[i])
  }

  function IsFound(bs: seq<Book>): int -> bool
  {
    id => FindBook(bs, id).Some?
  }

  /** `ids.map(id => books.get(id)).filter(defined)`. */
  function LookupAll(bs: seq<Book>, ids: seq<int>): seq<Book>
  {
    if ids == [] then []
    else
      (match FindBook(bs, ids[0]) case Some(b) => [b] case None => [])
      + LookupAll(bs, ids[1..])
  }

  /** Lookup keeps the order and the repetitions of the requested ids and drops
      the ids with no book: it is the found ids, each mapped to its book. */
  lemma {:induction false} LookupAllSpec(bs: seq<Book>, ids: seq<int>)
    ensures var found := Filter(ids, IsFound(bs));
      && |LookupAll(bs, ids)| == |found|
      && forall k :: 0 <= k < |found| ==>
           FindBook(bs, found[k]).Some? && LookupAll(bs, ids)[k] == FindBook(bs, found[k]).value
  {
    if ids != [] {
      LookupAllSpec(bs, ids[1..]);
    }
  }

  /** Every requested id that has a book brings that book into the result. */
  lemma {:induction false} LookupAllFinds(bs: seq<Book>, ids: seq<int>, id: int)
    requires id in ids && FindBook(bs, id).Some?
    ensures FindBook(bs, id).value in LookupAll(bs, ids)
  {
    if ids[0] != id {
      LookupAllFinds(bs, ids[1..], id);
    }
  }

  /** Every looked-up book is in the catalogue and has one of the requested ids. */
  lemma {:induction false} LookupAllMembers(bs: seq<Book>, ids: seq<int>)
    ensures forall b :: b in LookupAll(bs, ids) ==> b in bs && b.id in ids
  {
    if ids != [] {
      LookupAllMembers(bs, ids[1..]);
    }
  }

  // ===== Popularity: a stable sort by rating, highest first =====

  /** `parseFloat(rating)` on a well-formed decimal; malformed text ranks lowest. */
  function Score(b: Book): real
  {
    match ParseDecimal(b.rating)
    case Some(v) => v
    case None => -1.0
  }

  function RatingKey(): Book -> real
  {
    b => Score(b)
  }

  function HasScore(v: real): Book -> bool
  {
    b => Score(b) == v
  }

  /** `books.sort((a, b) => parseFloat(b.rating) - parseFloat(a.rating))`. */
  function SortByRating(s: seq<Book>): seq<Book>
  {
    SortDescendingBy(s, RatingKey())
  }

  /** The sort orders by rating, highest first, is a permutation, and keeps
      books with equal ratings in insertion order. */
  lemma SortByRatingSpec(s: seq<Book>)
    ensures forall i, j :: 0 <= i < j < |SortByRating(s)| ==>
              Score(SortByRating(s)[i]) >= Score(SortByRating(s)[j])
    ensures multiset(SortByRating(s)) == multiset(s)
    ensures forall v :: Filter(SortByRating(s), HasScore(v)) == Filter(s, HasScore(v))
  {
    SortDescendingBySpec(s, RatingKey());
    forall v ensures Filter(SortByRating(s), HasScore(v)) == Filter(s, HasScore(v)) {
      FilterSameTest(SortByRating(s), HasScore(v), KeyIs(RatingKey(), v));
      FilterSameTest(s, HasScore(v), KeyIs(RatingKey(), v));
    }
  }

  /** `getPopularBooks(limit)`: the sorted copy, cut at `limit` as `slice(0, limit)` does. */
  function PopularIn(bs: seq<Book>, limit: int): seq<Book>
  {
    SliceTo(SortByRating(bs), limit)
  }

  /** The popular list is the first `min(limit, |books|)` books by rating: it is
      ordered, drawn from the catalogue, keeps ties in insertion order, and no
      book left out is rated above a book returned. */
  lemma PopularSpec(bs: seq<Book>, limit: int)
    ensures forall i, j :: 0 <= i < j < |PopularIn(bs, limit)| ==>
              Score(PopularIn(bs, limit)[i]) >= Score(PopularIn(bs, limit)[j])
    ensures 0 <= limit ==> |PopularIn(bs, limit)| == if limit < |bs| then limit else |bs|
    ensures multiset(PopularIn(bs, limit)) <= multiset(bs)
    ensures forall v :: Filter(PopularIn(bs, limit), HasScore(v)) <= Filter(bs, HasScore(v))
    ensures forall b :: multiset(PopularIn(bs, limit))[b] < multiset(bs)[b] ==>
              forall i :: 0 <= i < |PopularIn(bs, limit)| ==> Score(PopularIn(bs, limit)[i]) >= Score(b)
  {
    var sorted := SortByRating(bs);
    var k := SliceEnd(|sorted|, limit);
    TopOfSortedDescendingBy(bs, RatingKey(), k);
    TopOfSortedIsHighest(bs, RatingKey(), k);
    var r := PopularIn(bs, limit);
    assert r == sorted[..k];
    forall v ensures Filter(r, HasScore(v)) <= Filter(bs, HasScore(v)) {
      FilterSameTest(r, HasScore(v), KeyIs(RatingKey(), v));
      FilterSameTest(bs, HasScore(v), KeyIs(RatingKey(), v));
    }
  }

  /** `getRecommendedBooks`: the preferred genres cut at `limit` when the user
      has a non-empty preference, the popular list otherwise. */
  function Recommended(pref: Option<UserPreference>, bs: seq<Book>, limit: int): seq<Book>
  {
    if pref.Some? && |pref.value.genres| > 0 then SliceTo(FilterByGenres(bs, pref.value.genres), limit)
    else PopularIn(bs, limit)
  }

  /** With a non-empty preference every recommended book carries a preferred
      genre, in insertion order and at most `limit` of them; without one the
      recommendations are the popular list. */
  lemma RecommendedSpec(pref: Option<UserPreference>, bs: seq<Book>, limit: int)
    ensures pref.Some? && pref.value.genres != [] ==>
      && Recommended(pref, bs, limit) <= FilterByGenres(bs, pref.value.genres)
      && (forall b :: b in Recommended(pref, bs, limit) ==> b in bs && HasAnyGenre(b, pref.value.genres))
      && (0 <= limit ==>
            |Recommended(pref, bs, limit)| ==
            if limit < |FilterByGenres(bs, pref.value.genres)| then limit else |FilterByGenres(bs, pref.value.genres)|)
    ensures (pref.None? || pref.value.genres == []) ==> Recommended(pref, bs, limit) == PopularIn(bs, limit)
  {
    if pref.Some? && pref.value.genres != [] {
      FilterByGenresSpec(bs, pref.value.genres);
      var all := FilterByGenres(bs, pref.value.genres);
      forall b | b in Recommended(pref, bs, limit) ensures b in bs && HasAnyGenre(b, pref.value.genres) {
        assert b in all;
      }
    }
  }

  // ===== Favourites: a per-user set of book ids, kept in insertion order =====

  predicate NoDuplicates<T(==)>(s: seq<T>)
  {
    forall i, j :: 0 <= i < j < |s| ==> s[i] != s[j]
  }

  /** `set.add(x)`: a new element goes last, a present one stays where it is. */
  function AddToSet(s: seq<int>, x: int): seq<int>
  {
    if x in s then s else s + [x]
  }

  /** Adding makes the element present, keeps the others and their order,
      and never duplicates. */
  lemma AddToSetSpec(s: seq<int>, x: int)
    requires NoDuplicates(s)
    ensures NoDuplicates(AddToSet(s, x))
    ensures forall y :: y in AddToSet(s, x) <==> y in s || y == x
    ensures s <= AddToSet(s, x)
    ensures x in s ==> AddToSet(s, x) == s
  {
  }

  function Other(x: int): int -> bool
  {
    y => y != x
  }

  /** `set.delete(x)`. */
  function RemoveFromSet(s: seq<int>, x: int): seq<int>
  {
    Filter(s, Other(x))
  }

  /** Removing keeps the other elements in order and is a no-op for an absent one. */
  lemma RemoveFromSetSpec(s: seq<int>, x: int)
    requires NoDuplicates(s)
    ensures NoDuplicates(RemoveFromSet(s, x))
    ensures forall y :: y in RemoveFromSet(s, x) <==> y in s && y != x
    ensures x !in s ==> RemoveFromSet(s, x) == s
    ensures IsSubsequence(RemoveFromSet(s, x), s)
  {
    FilterMembers(s, Other(x));
    FilterOrder(s, Other(x));
    FilterNoDuplicates(s, Other(x));
    if x !in s {
      FilterAll(s, Other(x));
    }
  }

  /** Filtering a sequence without duplicates leaves none. */
  lemma {:induction false} FilterNoDuplicates<T>(s: seq<T>, p: T -> bool)
    requires NoDuplicates(s)
    ensures NoDuplicates(Filter(s, p))
  {
    if s != [] {
      var t := Filter(s[1..], p);
      assert NoDuplicates(s[1..]) by {
        forall i, j | 0 <= i < j < |s[1..]| ensures s[1..][i] != s[1..][j] {
          assert s[1..][i] == s[i + 1] && s[1..][j] == s[j + 1];
        }
      }
      FilterNoDuplicates(s[1..], p);
      FilterMembers(s[1..], p);
      if p(s[0]) {
        var r := [s[0]] + t;
        assert s[0] !in t by {
          forall k | 0 <= k < |s[1..]| ensures s[1..][k] != s[0] {
            assert s[1..][k] == s[k + 1];
          }
        }
        forall i, j | 0 <= i < j < |r| ensures r[i] != r[j] {
          if i == 0 {
            assert r[j] == t[j - 1];
          } else {
            assert r[i] == t[i - 1] && r[j] == t[j - 1];
          }
        }
      }
    }
  }

  /** In a sequence without duplicates, an element is present exactly once. */
  lemma NoDuplicatesMember<T>(s: seq<T>, x: T)
    ensures NoDuplicates(s) ==> (x in s <==> multiset(s)[x] == 1)
  {
    if NoDuplicates(s) {
      NoDuplicatesCount(s, x);
    }
  }

  lemma {:induction false} NoDuplicatesCount<T>(s: seq<T>, x: T)
    requires NoDuplicates(s)
    ensures multiset(s)[x] <= 1
  {
    if s != [] {
      assert NoDuplicates(s[1..]);
      NoDuplicatesCount(s[1..], x);
      assert s == [s[0]] + s[1..];
      if s[0] == x {
        assert x !in s[1..];
      }
    }
  }

  // ===== Reviews: per-book lists, searched in book insertion order =====

  function ReviewsOf(m: map<int, seq<BookReview>>, bookId: int): seq<BookReview>
  {
    if bookId in m then m[bookId] else []
  }

  function HasReviewId(id: int): BookReview -> bool
  {
    (r: BookReview) => r.id == id
  }

  function ByUser(userId: string): BookReview -> bool
  {
    (r: BookReview) => r.userId == userId
  }

  /** Where a review sits: the book whose list holds it and its position there. */
  datatype Location = Location(bookId: int, index: nat)

  /** The first book, in `order`, whose list holds a review with `id`, and the
      first such position in that list. */
  function Locate(order: seq<int>, m: map<int, seq<BookReview>>, id: int): (loc: Option<Location>)
    ensures loc.Some? ==>
      && loc.value.bookId in order
      && loc.value.index < |ReviewsOf(m, loc.value.bookId)|
      && ReviewsOf(m, loc.value.bookId)[loc.value.index].id == id
      && forall i :: 0 <= i < loc.value.index ==> ReviewsOf(m, loc.value.bookId)[i].id != id
    ensures loc.None? <==>
      forall k, i :: k in order && 0 <= i < |ReviewsOf(m, k)| ==> ReviewsOf(m, k)[i].id != id
  {
    if order == [] then None
    else
      var i := FindIndex(ReviewsOf(m, order[0]), HasReviewId(id));
      if i >= 0 then Some(Location(order[0], i))
      else
        var rest := Locate(order[1..], m, id);
        assert forall k :: k in order ==> k == order[0] || k in order[1..];
        rest
  }

  /** No book among the first `p` of `order` holds a review with `id`. */
  ghost predicate AbsentBefore(order: seq<int>, m: map<int, seq<BookReview>>, id: int, p: int)
    requires 0 <= p <= |order|
  {
    forall q, i :: 0 <= q < p && 0 <= i < |ReviewsOf(m, order[q])| ==> ReviewsOf(m, order[q])[i].id != id
  }

  /** No book listed before the located one holds a review with `id`. */
  lemma {:induction false} LocateFirst(order: seq<int>, m: map<int, seq<BookReview>>, id: int)
    ensures Locate(order, m, id).Some? ==>
      exists p :: 0 <= p < |order| && order[p] == Locate(order, m, id).value.bookId
        && AbsentBefore(order, m, id, p)
  {
    if order != [] && Locate(order, m, id).Some? {
      var i := FindIndex(ReviewsOf(m, order[0]), HasReviewId(id));
      if i >= 0 {
        assert Locate(order, m, id).value.bookId == order[0];
        assert AbsentBefore(order, m, id, 0);
      } else {
        var rest := order[1..];
        assert Locate(order, m, id) == Locate(rest, m, id);
        LocateFirst(rest, m, id);
        var p :| 0 <= p < |rest| && rest[p] == Locate(rest, m, id).value.bookId
          && AbsentBefore(rest, m, id, p);
        assert order[p + 1] == rest[p];
        forall q, j | 0 <= q < p + 1 && 0 <= j < |ReviewsOf(m, order[q])|
          ensures ReviewsOf(m, order[q])[j].id != id
        {
          if q > 0 {
            assert order[q] == rest[q - 1];
          } else {
            assert !HasReviewId(id)(ReviewsOf(m, order[0])[j]);
          }
        }
        assert AbsentBefore(order, m, id, p + 1);
        assert 0 <= p + 1 < |order| && order[p + 1] == Locate(order, m, id).value.bookId;
      }
    }
  }

  ghost predicate ReviewListValid(rs: seq<BookReview>, nextId: int)
  {
    forall i :: 0 <= i < |rs| ==> rs[i].id < nextId
  }

  /** The review lists: `order` lists each book key once, and every id is
      below the next id. */
  ghost predicate ReviewIndexValid(order: seq<int>, m: map<int, seq<BookReview>>, nextId: int)
  {
    && NoDuplicates(order)
    && (forall k :: k in m <==> k in order)
    && (forall k :: k in m ==> ReviewListValid(m[k], nextId))
  }

  lemma ReviewIndexReplace(order: seq<int>, m: map<int, seq<BookReview>>, nextId: int, k: int, rs: seq<BookReview>)
    requires ReviewIndexValid(order, m, nextId) && k in m && ReviewListValid(rs, nextId)
    ensures ReviewIndexValid(order, m[k := rs], nextId)
  {
  }

  lemma ReviewListRemove(rs: seq<BookReview>, nextId: int, i: nat)
    requires ReviewListValid(rs, nextId) && i < |rs|
    ensures ReviewListValid(rs[..i] + rs[i + 1..], nextId)
  {
    var rest := rs[..i] + rs[i + 1..];
    forall j | 0 <= j < |rest| ensures rest[j].id < nextId {
      if j < i { assert rest[j] == rs[j]; } else { assert rest[j] == rs[j + 1]; }
    }
  }

  /** The review at `loc` with `patch` applied; everything else as it was. */
  function PatchAt(m: map<int, seq<BookReview>>, loc: Location, patch: ReviewPatch): map<int, seq<BookReview>>
  {
    var rs := ReviewsOf(m, loc.bookId);
    if loc.index < |rs| then m[loc.bookId := rs[loc.index := ApplyPatch(rs[loc.index], patch)]] else m
  }

  /** The review at `loc` spliced out of its list. */
  function RemoveAt(m: map<int, seq<BookReview>>, loc: Location): map<int, seq<BookReview>>
  {
    var rs := ReviewsOf(m, loc.bookId);
    if loc.index < |rs| then m[loc.bookId := rs[..loc.index] + rs[loc.index + 1..]] else m
  }

  /** Patching a located review changes only that review and keeps the ids. */
  lemma PatchAtValid(order: seq<int>, m: map<int, seq<BookReview>>, nextId: int, loc: Location, patch: ReviewPatch)
    requires ReviewIndexValid(order, m, nextId)
    requires loc.bookId in order && loc.index < |ReviewsOf(m, loc.bookId)|
    ensures ReviewIndexValid(order, PatchAt(m, loc, patch), nextId)
    ensures var rs := ReviewsOf(m, loc.bookId);
      PatchAt(m, loc, patch)[loc.bookId] == rs[loc.index := ApplyPatch(rs[loc.index], patch)]
    ensures forall k :: k != loc.bookId ==> ReviewsOf(PatchAt(m, loc, patch), k) == ReviewsOf(m, k)
  {
    var rs := ReviewsOf(m, loc.bookId);
    ReviewIndexReplace(order, m, nextId, loc.bookId, rs[loc.index := ApplyPatch(rs[loc.index], patch)]);
  }

  /** Deleting a located review splices exactly that review out of its
      list, and changes no other list. */
  lemma RemoveAtValid(order: seq<int>, m: map<int, seq<BookReview>>, nextId: int, loc: Location)
    requires ReviewIndexValid(order, m, nextId)
    requires loc.bookId in order && loc.index < |ReviewsOf(m, loc.bookId)|
    ensures ReviewIndexValid(order, RemoveAt(m, loc), nextId)
    ensures var rs := ReviewsOf(m, loc.bookId);
      RemoveAt(m, loc)[loc.bookId] == rs[..loc.index] + rs[loc.index + 1..]
    ensures forall k :: k != loc.bookId ==> ReviewsOf(RemoveAt(m, loc), k) == ReviewsOf(m, k)
  {
    var rs := ReviewsOf(m, loc.bookId);
    ReviewListRemove(rs, nextId, loc.index);
    ReviewIndexReplace(order, m, nextId, loc.bookId, rs[..loc.index] + rs[loc.index + 1..]);
  }

  /** The splice takes away one copy of the located review and nothing else. */
  lemma RemoveAtCount(m: map<int, seq<BookReview>>, loc: Location)
    requires loc.index < |ReviewsOf(m, loc.bookId)|
    ensures var rs := ReviewsOf(m, loc.bookId);
      multiset(rs) == multiset(RemoveAt(m, loc)[loc.bookId]) + multiset{rs[loc.index]}
  {
    var rs := ReviewsOf(m, loc.bookId);
    assert rs == rs[..loc.index] + [rs[loc.index]] + rs[loc.index + 1..];
  }

  /** Every review, book after book in `order`. */
  function AllReviews(order: seq<int>, m: map<int, seq<BookReview>>): seq<BookReview>
  {
    if order == [] then []
    else AllReviews(order[..|order| - 1], m) + ReviewsOf(m, order[|order| - 1])
  }

  lemma {:induction false} AllReviewsMembers(order: seq<int>, m: map<int, seq<BookReview>>)
    ensures forall r :: r in AllReviews(order, m) <==> exists k :: k in order && r in ReviewsOf(m, k)
  {
    if order != [] {
      var init := order[..|order| - 1];
      AllReviewsMembers(init, m);
      assert order == init + [order[|order| - 1]];
      forall r ensures r in AllReviews(order, m) <==> exists k :: k in order && r in ReviewsOf(m, k) {
        if r in AllReviews(order, m) {
          if r in AllReviews(init, m) {
            var k :| k in init && r in ReviewsOf(m, k);
            assert k in order;
          }
        }
      }
    }
  }

  // ===== Reading progress: per user, records kept in insertion order by book =====

  function ProgressOf(m: map<string, seq<ReadingProgress>>, userId: string): seq<ReadingProgress>
  {
    if userId in m then m[userId] else []
  }

  function ForBook(bookId: int): ReadingProgress -> bool
  {
    (p: ReadingProgress) => p.bookId == bookId
  }

  /** A record of a user's progress has that user, one record per book, and an
      id below the counter. */
  ghost predicate ProgressListValid(ps: seq<ReadingProgress>, userId: string, nextId: int)
  {
    && (forall i, j :: 0 <= i < j < |ps| ==> ps[i].bookId != ps[j].bookId)
    && (forall i :: 0 <= i < |ps| ==> ps[i].userId == userId && ps[i].id < nextId)
  }

  ghost predicate ProgressIndexValid(m: map<string, seq<ReadingProgress>>, nextId: int)
  {
    forall u :: u in m ==> ProgressListValid(m[u], u, nextId)
  }

  /** The user's list with `r` in place of the record for its book, or
      appended when the book has none yet. */
  function PutProgress(ps: seq<ReadingProgress>, r: ReadingProgress): seq<ReadingProgress>
  {
    var k := FindIndex(ps, ForBook(r.bookId));
    if k >= 0 then ps[k := r] else ps + [r]
  }

  function ProgressAt(m: map<string, seq<ReadingProgress>>, userId: string, bookId: int): Option<ReadingProgress>
  {
    var ps := ProgressOf(m, userId);
    var i := FindIndex(ps, ForBook(bookId));
    if i < 0 then None else Some(ps[i])
  }

  /** Putting a record keeps the index valid, makes it the one found for its
      user and book, and leaves every other lookup as it was. */
  lemma PutProgressSpec(m: map<string, seq<ReadingProgress>>, userId: string, nextId: int, nextId': int, r: ReadingProgress)
    requires ProgressIndexValid(m, nextId) && nextId <= nextId'
    requires r.userId == userId && r.id < nextId'
    requires var k := FindIndex(ProgressOf(m, userId), ForBook(r.bookId)); k >= 0 ==> r.id < nextId
    ensures var m' := m[userId := PutProgress(ProgressOf(m, userId), r)];
      && ProgressIndexValid(m', nextId')
      && ProgressAt(m', userId, r.bookId) == Some(r)
      && forall u, b :: u != userId || b != r.bookId ==> ProgressAt(m', u, b) == ProgressAt(m, u, b)
  {
    var ps := ProgressOf(m, userId);
    var k := FindIndex(ps, ForBook(r.bookId));
    var ps' := PutProgress(ps, r);
    var m' := m[userId := ps'];
    forall u | u in m' ensures ProgressListValid(m'[u], u, nextId') {
      if u != userId {
        ProgressListGrow(m[u], u, nextId, nextId');
      } else {
        if userId in m {
          assert ProgressListValid(ps, userId, nextId);
        }
        PutProgressValid(ps, userId, nextId, nextId', r);
      }
    }
    FindIndexIs(ps', ForBook(r.bookId), if k >= 0 then k else |ps|);
    forall b | b != r.bookId ensures ProgressAt(m', userId, b) == ProgressAt(m, userId, b) {
      var j := FindIndex(ps, ForBook(b));
      if j >= 0 {
        assert j != k;
        FindIndexIs(ps', ForBook(b), j);
      } else {
        assert forall i :: 0 <= i < |ps'| ==> !ForBook(b)(ps'[i]);
      }
    }
  }

  /** Putting a record for the user keeps one record per book and ids below
      the (possibly advanced) counter. */
  lemma PutProgressValid(ps: seq<ReadingProgress>, userId: string, nextId: int, nextId': int, r: ReadingProgress)
    requires ProgressListValid(ps, userId, nextId) && nextId <= nextId'
    requires r.userId == userId && r.id < nextId'
    ensures ProgressListValid(PutProgress(ps, r), userId, nextId')
  {
    var k := FindIndex(ps, ForBook(r.bookId));
    var ps' := PutProgress(ps, r);
    if k >= 0 {
      forall i, j | 0 <= i < j < |ps'| ensures ps'[i].bookId != ps'[j].bookId {
        if i == k { assert ps'[j] == ps[j] && ps[k].bookId == r.bookId; }
        else if j == k { assert ps'[i] == ps[i] && ps[k].bookId == r.bookId; }
      }
    } else {
      forall i, j | 0 <= i < j < |ps'| ensures ps'[i].bookId != ps'[j].bookId {
        if j == |ps| { assert !ForBook(r.bookId)(ps[i]); }
      }
    }
  }

  lemma ProgressListGrow(ps: seq<ReadingProgress>, userId: string, nextId: int, nextId': int)
    requires ProgressListValid(ps, userId, nextId) && nextId <= nextId'
    ensures ProgressListValid(ps, userId, nextId')
  {
  }

  /** One entry of the reading list. */
  datatype ReadingEntry = ReadingEntry(book: Book, progress: ReadingProgress)

  function HasBookIn(bs: seq<Book>): ReadingProgress -> bool
  {
    (p: ReadingProgress) => FindBook(bs, p.bookId).Some?
  }

  /** The reading list: each progress record, in order, with its book, when the
      book is in the catalogue. */
  function ReadingListOf(ps: seq<ReadingProgress>, bs: seq<Book>): seq<ReadingEntry>
  {
    if ps == [] then []
    else
      var p := ps[|ps| - 1];
      ReadingListOf(ps[..|ps| - 1], bs)
      + match FindBook(bs, p.bookId) case Some(b) => [ReadingEntry(b, p)] case None => []
  }

  function Progresses(es: seq<ReadingEntry>): seq<ReadingProgress>
  {
    seq(|es|, i requires 0 <= i < |es| => es[i].progress)
  }

  /** The reading list pairs every record whose book exists with that book,
      skips the others, and keeps the records' order. */
  lemma {:induction false} ReadingListSpec(ps: seq<ReadingProgress>, bs: seq<Book>)
    ensures Progresses(ReadingListOf(ps, bs)) == Filter(ps, HasBookIn(bs))
    ensures forall e :: e in ReadingListOf(ps, bs) ==>
              e.book in bs && e.book.id == e.progress.bookId && e.progress in ps
  {
    if ps != [] {
      var init := ps[..|ps| - 1];
      var p := ps[|ps| - 1];
      ReadingListSpec(init, bs);
      assert ps == init + [p];
      FilterConcat(init, [p], HasBookIn(bs));
      var prev := ReadingListOf(init, bs);
      var tail := match FindBook(bs, p.bookId) case Some(b) => [ReadingEntry(b, p)] case None => [];
      assert ReadingListOf(ps, bs) == prev + tail;
      ProgressesConcat(prev, tail);
      assert Progresses(tail) == Filter([p], HasBookIn(bs));
      forall e: ReadingEntry | e in prev + tail
        ensures e.book in bs && e.book.id == e.progress.bookId && e.progress in ps
      {
        if e in prev {
          assert e.progress in init;
        }
      }
    }
  }

  lemma ProgressesConcat(a: seq<ReadingEntry>, b: seq<ReadingEntry>)
    ensures Progresses(a + b) == Progresses(a) + Progresses(b)
  {
  }

  // ===== The store =====

  /** The ten books the store is seeded with (long descriptions and cover
      links are not part of this model). */
  const SampleBooks: seq<InsertBook> := [
    InsertBook("The Night Circus", "Erin Morgenstern", "", "", ["Fantasy", "Fiction", "Romance"],
               "4.5", 516, "September 13, 2011", "9780385534635", "English"),
    InsertBook("Project Hail Mary", "Andy Weir", "", "", ["Sci-Fi", "Adventure", "Fiction"],
               "4.9", 496, "May 4, 2021", "9780593135204", "English"),
    InsertBook("The Silent Patient", "Alex Michaelides", "", "", ["Thriller", "Mystery", "Fiction"],
               "4.5", 336, "February 5, 2019", "9781250301697", "English"),
    InsertBook("Educated", "Tara Westover", "", "", ["Memoir", "Biography", "Nonfiction"],
               "4.0", 334, "February 20, 2018", "9780399590504", "English"),
    InsertBook("The Midnight Library", "Matt Haig", "", "", ["Fiction", "Philosophy", "Fantasy"],
               "4.2", 304, "September 29, 2020", "9780525559474", "English"),
    InsertBook("Where the Crawdads Sing", "Delia Owens", "", "", ["Fiction", "Mystery", "Literary"],
               "4.7", 384, "August 14, 2018", "9780735219090", "English"),
    InsertBook("Atomic Habits", "James Clear", "", "", ["Self-Help", "Nonfiction", "Psychology"],
               "4.8", 320, "October 16, 2018", "9780735211292", "English"),
    InsertBook("Sapiens: A Brief History of Humankind", "Yuval Noah Harari", "", "",
               ["History", "Nonfiction", "Science"], "4.6", 464, "February 10, 2015", "9780062316097", "English"),
    InsertBook("The Song of Achilles", "Madeline Miller", "", "", ["Historical Fiction", "Fantasy", "Romance"],
               "4.7", 416, "March 6, 2012", "9780062060624", "English"),
    InsertBook("The Thursday Murder Club", "Richard Osman", "", "", ["Mystery", "Humor", "Fiction"],
               "4.1", 382, "September 3, 2020", "9780241425459", "English")
  ]

  class MemStorage {
    /** The `books` map; a book's key is its id, so the entries are the books. */
    var books: seq<Book>
    /** user id -> favourite book ids (a JavaScript Set, in insertion order). */
    var userFavorites: map<string, seq<int>>
    var userPreferences: map<string, UserPreference>
    /** book id -> its reviews; `reviewOrder` lists the keys in insertion order. */
    var bookReviews: map<int, seq<BookReview>>
    var reviewOrder: seq<int>
    /** user id -> that user's progress records, in insertion order of their book. */
    var readingProgress: map<string, seq<ReadingProgress>>
    var currentBookId: nat
    var currentFavoriteId: nat
    var currentPreferenceId: nat
    var currentReviewId: nat
    var currentProgressId: nat

    ghost predicate Valid()
      reads this
    {
      CatalogValid() && FavoritesValid() && PreferencesValid() && ReviewsValid() && ProgressValid()
    }

    /** Book ids are distinct and below the next id. */
    ghost predicate CatalogValid()
      reads this`books, this`currentBookId
    {
      && (forall i, j :: 0 <= i < j < |books| ==> books[i].id != books[j].id)
      && (forall i :: 0 <= i < |books| ==> books[i].id < currentBookId)
    }

    ghost predicate FavoritesValid()
      reads this`userFavorites
    {
      forall u :: u in userFavorites ==> NoDuplicates(userFavorites[u])
    }

    ghost predicate PreferencesValid()
      reads this`userPreferences, this`currentPreferenceId
    {
      forall u :: u in userPreferences ==>
        userPreferences[u].userId == u && userPreferences[u].id < currentPreferenceId
    }

    ghost predicate ReviewsValid()
      reads this`bookReviews, this`reviewOrder, this`currentReviewId
    {
      ReviewIndexValid(reviewOrder, bookReviews, currentReviewId)
    }

    ghost predicate ProgressValid()
      reads this`readingProgress, this`currentProgressId
    {
      ProgressIndexValid(readingProgress, currentProgressId)
    }

    /** A fresh store holding the sample books with ids 1 to 10, in order. */
    constructor ()
      ensures Valid()
      ensures |books| == |SampleBooks|
      ensures forall i :: 0 <= i < |books| ==> books[i] == WithId(SampleBooks[i], i + 1)
      ensures userFavorites == map[] && userPreferences == map[] && readingProgress == map[]
      ensures bookReviews == map[] && reviewOrder == []
      ensures currentBookId == |SampleBooks| + 1
      ensures currentFavoriteId == 1 && currentPreferenceId == 1
      ensures currentReviewId == 1 && currentProgressId == 1
    {
      books := [];
      userFavorites := map[];
      userPreferences := map[];
      bookReviews := map[];
      reviewOrder := [];
      readingProgress := map[];
      currentBookId := 1;
      currentFavoriteId := 1;
      currentPreferenceId := 1;
      currentReviewId := 1;
      currentProgressId := 1;
      new;
      AddBooks(SampleBooks);
    }

    /** `inserts.forEach(book => books.set(currentBookId++, { ...book, id }))`:
        each book is stored under the next id, in order. */
    method AddBooks(inserts: seq<InsertBook>)
      requires CatalogValid()
      modifies this`books, this`currentBookId
      ensures CatalogValid()
      ensures |books| == |old(books)| + |inserts| && books[..|old(books)|] == old(books)
      ensures forall j :: 0 <= j < |inserts| ==>
                books[|old(books)| + j] == WithId(inserts[j], old(currentBookId) + j)
      ensures currentBookId == old(currentBookId) + |inserts|
    {
      var i := 0;
      while i < |inserts|
        invariant 0 <= i <= |inserts|
        invariant CatalogValid()
        invariant currentBookId == old(currentBookId) + i && |books| == |old(books)| + i
        invariant books[..|old(books)|] == old(books)
        invariant forall j :: 0 <= j < i ==> books[|old(books)| + j] == WithId(inserts[j], old(currentBookId) + j)
      {
        var id := currentBookId;
        currentBookId := currentBookId + 1;
        books := books + [WithId(inserts[i], id)];
        i := i + 1;
      }
    }

    // ----- books -----

    function GetAllBooks(): seq<Book>
      reads this
    {
      books
    }

    function GetBookById(id: int): Option<Book>
      reads this
    {
      FindBook(books, id)
    }

    function SearchBooks(query: string): seq<Book>
      reads this
    {
      SearchIn(books, query)
    }

    function FilterBooksByGenres(genres: seq<string>): seq<Book>
      reads this
    {
      FilterByGenres(books, genres)
    }

    function GetBooksByIds(ids: seq<int>): seq<Book>
      reads this
    {
      LookupAll(books, ids)
    }

    function GetBooksByCategory(category: string): seq<Book>
      reads this
    {
      ByCategory(books, category)
    }

    // ----- favourites -----

    /** A favourite is held exactly once in the user's set. */
    predicate IsFavoriteBook(userId: string, bookId: int)
      reads this
      ensures IsFavoriteBook(userId, bookId) ==> userId in userFavorites
      ensures FavoritesValid() && userId in userFavorites ==>
        (IsFavoriteBook(userId, bookId) <==> multiset(userFavorites[userId])[bookId] == 1)
    {
      if userId in userFavorites then
        NoDuplicatesMember(userFavorites[userId], bookId);
        bookId in userFavorites[userId]
      else false
    }

    /** The user's favourite books, in the order they were added; none for a
        user without favourites. */
    function GetFavoriteBooks(userId: string): (r: seq<Book>)
      reads this
      ensures userId !in userFavorites || userFavorites[userId] == [] ==> r == []
      ensures userId in userFavorites ==>
        var found := Filter(userFavorites[userId], IsFound(books));
        && |r| == |found|
        && forall k :: 0 <= k < |found| ==>
             FindBook(books, found[k]).Some? && r[k] == FindBook(books, found[k]).value
      ensures forall b :: b in r ==> b in books && IsFavoriteBook(userId, b.id)
      ensures forall id :: IsFavoriteBook(userId, id) && FindBook(books, id).Some? ==>
                FindBook(books, id).value in r
    {
      if userId !in userFavorites || |userFavorites[userId]| == 0 then []
      else
        var ids := userFavorites[userId];
        LookupAllMembers(books, ids);
        LookupAllSpec(books, ids);
        forall id | IsFavoriteBook(userId, id) && FindBook(books, id).Some?
          ensures FindBook(books, id).value in LookupAll(books, ids)
        {
          LookupAllFinds(books, ids, id);
        }
        GetBooksByIds(ids)
    }

    method AddFavoriteBook(favorite: InsertUserFavorite) returns (r: UserFavorite)
      requires Valid()
      modifies this`userFavorites, this`currentFavoriteId
      ensures Valid()
      ensures r == UserFavorite(old(currentFavoriteId), favorite.userId, favorite.bookId)
      ensures currentFavoriteId == old(currentFavoriteId) + 1
      ensures var ids := if favorite.userId in old(userFavorites) then old(userFavorites)[favorite.userId] else [];
              userFavorites == old(userFavorites)[favorite.userId := AddToSet(ids, favorite.bookId)]
      ensures IsFavoriteBook(favorite.userId, favorite.bookId)
      ensures forall u, b :: u != favorite.userId ==> (IsFavoriteBook(u, b) <==> old(IsFavoriteBook(u, b)))
    {
      if favorite.userId !in userFavorites {
        userFavorites := userFavorites[favorite.userId := []];
      }
      var ids := userFavorites[favorite.userId];
      userFavorites := userFavorites[favorite.userId := AddToSet(ids, favorite.bookId)];
      var id := currentFavoriteId;
      currentFavoriteId := currentFavoriteId + 1;
      r := UserFavorite(id, favorite.userId, favorite.bookId);
    }

    method RemoveFavoriteBook(userId: string, bookId: int)
      requires Valid()
      modifies this`userFavorites
      ensures Valid()
      ensures !IsFavoriteBook(userId, bookId)
      ensures userId in old(userFavorites) ==>
                userFavorites == old(userFavorites)[userId := RemoveFromSet(old(userFavorites)[userId], bookId)]
      ensures !old(IsFavoriteBook(userId, bookId)) ==> userFavorites == old(userFavorites)
      ensures forall u, b :: (u != userId || b != bookId) ==> (IsFavoriteBook(u, b) <==> old(IsFavoriteBook(u, b)))
    {
      if userId in userFavorites {
        RemoveFromSetSpec(userFavorites[userId], bookId);
        userFavorites := userFavorites[userId := RemoveFromSet(userFavorites[userId], bookId)];
      }
    }

    // ----- preferences -----

    /** The stored preference of the user, which is for that user and has an
        id already handed out; none for a user who never set one. */
    function GetUserPreferences(userId: string): (r: Option<UserPreference>)
      reads this
      ensures r.Some? <==> userId in userPreferences
      ensures PreferencesValid() && r.Some? ==> r.value.userId == userId && r.value.id < currentPreferenceId
    {
      if userId in userPreferences then Some(userPreferences[userId]) else None
    }

    method UpdateUserPreferences(preference: InsertUserPreference) returns (r: UserPreference)
      requires Valid()
      modifies this`userPreferences, this`currentPreferenceId
      ensures Valid()
      ensures r.userId == preference.userId && r.genres == preference.genres
      ensures preference.userId in old(userPreferences) ==>
                r.id == old(userPreferences)[preference.userId].id && currentPreferenceId == old(currentPreferenceId)
      ensures preference.userId !in old(userPreferences) ==>
                r.id == old(currentPreferenceId) && currentPreferenceId == old(currentPreferenceId) + 1
      ensures userPreferences == old(userPreferences)[preference.userId := r]
      ensures GetUserPreferences(preference.userId) == Some(r)
      ensures forall u :: u != preference.userId ==> GetUserPreferences(u) == old(GetUserPreferences(u))
    {
      var id;
      if preference.userId in userPreferences {
        id := userPreferences[preference.userId].id;
      } else {
        id := currentPreferenceId;
        currentPreferenceId := currentPreferenceId + 1;
      }
      r := UserPreference(id, preference.userId, preference.genres);
      userPreferences := userPreferences[preference.userId := r];
    }

    // ----- recommendations -----

    function GetRecommendedBooks(userId: string, limit: int := 6): seq<Book>
      reads this
    {
      Recommended(GetUserPreferences(userId), books, limit)
    }

    function GetPopularBooks(limit: int := 6): seq<Book>
      reads this
    {
      PopularIn(books, limit)
    }

    // ----- reviews -----

    /** The book's reviews in the order they were added, [] for a book
        nobody reviewed; each is among all the store's reviews. */
    function GetBookReviews(bookId: int): (r: seq<BookReview>)
      reads this
      ensures bookId !in bookReviews ==> r == []
      ensures ReviewsValid() ==> forall i :: 0 <= i < |r| ==> r[i].id < currentReviewId
      ensures ReviewsValid() ==> forall v :: v in r ==> v in AllReviews(reviewOrder, bookReviews)
    {
      AllReviewsMembers(reviewOrder, bookReviews);
      ReviewsOf(bookReviews, bookId)
    }

    method AddBookReview(review: InsertBookReview, now: Timestamp) returns (r: BookReview)
      requires Valid()
      modifies this`bookReviews, this`reviewOrder, this`currentReviewId
      ensures Valid()
      ensures r == NewReview(review, old(currentReviewId), now)
      ensures currentReviewId == old(currentReviewId) + 1
      ensures bookReviews == old(bookReviews)[review.bookId := ReviewsOf(old(bookReviews), review.bookId) + [r]]
      ensures reviewOrder == if review.bookId in old(bookReviews) then old(reviewOrder)
                             else old(reviewOrder) + [review.bookId]
      ensures forall k, i :: k in old(bookReviews) && 0 <= i < |old(bookReviews)[k]| ==>
                old(bookReviews)[k][i].id < r.id
      ensures GetBookReviews(review.bookId) == old(GetBookReviews(review.bookId)) + [r]
      ensures forall b :: b != review.bookId ==> GetBookReviews(b) == old(GetBookReviews(b))
    {
      if review.bookId !in bookReviews {
        bookReviews := bookReviews[review.bookId := []];
        reviewOrder := reviewOrder + [review.bookId];
      }
      var id := currentReviewId;
      currentReviewId := currentReviewId + 1;
      r := NewReview(review, id, now);
      bookReviews := bookReviews[review.bookId := bookReviews[review.bookId] + [r]];
    }

    /** The scan both review updates share: book after book in insertion
        order, the first review with `id`. */
    method FindReview(id: int) returns (loc: Option<Location>)
      ensures loc == Locate(reviewOrder, bookReviews, id)
    {
      var i := 0;
      while i < |reviewOrder|
        invariant 0 <= i <= |reviewOrder|
        invariant Locate(reviewOrder, bookReviews, id) == Locate(reviewOrder[i..], bookReviews, id)
      {
        var bookId := reviewOrder[i];
        var index := FindIndex(ReviewsOf(bookReviews, bookId), HasReviewId(id));
        if index != -1 {
          return Some(Location(bookId, index));
        }
        assert reviewOrder[i..][1..] == reviewOrder[i + 1..];
        i := i + 1;
      }
      return None;
    }

    method UpdateBookReview(id: int, patch: ReviewPatch) returns (r: Result<BookReview>)
      requires Valid()
      modifies this`bookReviews
      ensures Valid()
      ensures match Locate(reviewOrder, old(bookReviews), id)
        case None => r == Err(ReviewNotFound) && bookReviews == old(bookReviews)
        case Some(loc) =>
          && r == Ok(ApplyPatch(ReviewsOf(old(bookReviews), loc.bookId)[loc.index], patch))
          && bookReviews == PatchAt(old(bookReviews), loc, patch)
          && GetBookReviews(loc.bookId) == old(GetBookReviews(loc.bookId))[loc.index := r.value]
          && forall b :: b != loc.bookId ==> GetBookReviews(b) == old(GetBookReviews(b))
    {
      var loc := FindReview(id);
      if loc.None? {
        return Err(ReviewNotFound);
      }
      assert loc == Locate(reviewOrder, old(bookReviews), id);
      var review := PatchReview(loc.value, patch);
      r := Ok(review);
    }

    /** `reviews[index] = { ...reviews[index], ...patch }` on the located book's list. */
    method PatchReview(loc: Location, patch: ReviewPatch) returns (r: BookReview)
      requires Valid()
      requires loc.bookId in reviewOrder && loc.index < |ReviewsOf(bookReviews, loc.bookId)|
      modifies this`bookReviews
      ensures Valid()
      ensures r == ApplyPatch(ReviewsOf(old(bookReviews), loc.bookId)[loc.index], patch)
      ensures bookReviews == PatchAt(old(bookReviews), loc, patch)
      ensures GetBookReviews(loc.bookId) == ReviewsOf(old(bookReviews), loc.bookId)[loc.index := r]
      ensures forall b :: b != loc.bookId ==> GetBookReviews(b) == ReviewsOf(old(bookReviews), b)
    {
      r := ApplyPatch(ReviewsOf(bookReviews, loc.bookId)[loc.index], patch);
      PatchAtValid(reviewOrder, bookReviews, currentReviewId, loc, patch);
      bookReviews := PatchAt(bookReviews, loc, patch);
    }

    method DeleteBookReview(id: int)
      requires Valid()
      modifies this`bookReviews
      ensures Valid()
      ensures match Locate(reviewOrder, old(bookReviews), id)
        case None => bookReviews == old(bookReviews)
        case Some(loc) =>
          && bookReviews == RemoveAt(old(bookReviews), loc)
          && GetBookReviews(loc.bookId) ==
               old(GetBookReviews(loc.bookId))[..loc.index] + old(GetBookReviews(loc.bookId))[loc.index + 1..]
          && forall b :: b != loc.bookId ==> GetBookReviews(b) == old(GetBookReviews(b))
    {
      var loc := FindReview(id);
      if loc.None? {
        return;
      }
      assert loc == Locate(reviewOrder, old(bookReviews), id);
      SpliceReview(loc.value);
    }

    /** `reviews.splice(index, 1)` on the located book's list. */
    method SpliceReview(loc: Location)
      requires Valid()
      requires loc.bookId in reviewOrder && loc.index < |ReviewsOf(bookReviews, loc.bookId)|
      modifies this`bookReviews
      ensures Valid()
      ensures bookReviews == RemoveAt(old(bookReviews), loc)
      ensures var rs := ReviewsOf(old(bookReviews), loc.bookId);
        GetBookReviews(loc.bookId) == rs[..loc.index] + rs[loc.index + 1..]
      ensures forall b :: b != loc.bookId ==> GetBookReviews(b) == ReviewsOf(old(bookReviews), b)
    {
      RemoveAtValid(reviewOrder, bookReviews, currentReviewId, loc);
      bookReviews := RemoveAt(bookReviews, loc);
    }

    /** Every review the user wrote, book after book in insertion order. */
    method GetUserReviews(userId: string) returns (r: seq<BookReview>)
      ensures r == Filter(AllReviews(reviewOrder, bookReviews), ByUser(userId))
      ensures forall v :: v in r <==>
                v.userId == userId && exists k :: k in reviewOrder && v in ReviewsOf(bookReviews, k)
    {
      r := [];
      var i := 0;
      while i < |reviewOrder|
        invariant 0 <= i <= |reviewOrder|
        invariant r == Filter(AllReviews(reviewOrder[..i], bookReviews), ByUser(userId))
      {
        var reviews := ReviewsOf(bookReviews, reviewOrder[i]);
        assert reviewOrder[..i + 1][..i] == reviewOrder[..i];
        FilterConcat(AllReviews(reviewOrder[..i], bookReviews), reviews, ByUser(userId));
        r := r + Filter(reviews, ByUser(userId));
        i := i + 1;
      }
      assert reviewOrder[..i] == reviewOrder;
      FilterMembers(AllReviews(reviewOrder, bookReviews), ByUser(userId));
      AllReviewsMembers(reviewOrder, bookReviews);
    }

    // ----- reading progress -----

    /** The user's record for the book, if there is one. */
    function GetReadingProgress(userId: string, bookId: int): (r: Option<ReadingProgress>)
      reads this
      ensures userId !in readingProgress ==> r.None?
      ensures r.Some? ==> r.value.bookId == bookId && r.value in readingProgress[userId]
      ensures r.None? <==> forall p :: p in ProgressOf(readingProgress, userId) ==> p.bookId != bookId
      ensures ProgressValid() && r.Some? ==> r.value.userId == userId && r.value.id < currentProgressId
    {
      ProgressAt(readingProgress, userId, bookId)
    }

    method UpdateReadingProgress(progress: InsertReadingProgress, now: Timestamp) returns (r: ReadingProgress)
      requires Valid()
      modifies this`readingProgress, this`currentProgressId
      ensures Valid()
      ensures r.userId == progress.userId && r.bookId == progress.bookId && r.lastUpdated == now
      ensures r.pagesRead == PagesReadOrDefault(progress.pagesRead)
      ensures r.status == StatusOrDefault(progress.status)
      ensures var ps := ProgressOf(old(readingProgress), progress.userId);
              var k := FindIndex(ps, ForBook(progress.bookId));
              && (k >= 0 ==> r.id == ps[k].id && currentProgressId == old(currentProgressId))
              && (k < 0 ==> r.id == old(currentProgressId) && currentProgressId == old(currentProgressId) + 1)
              && readingProgress == old(readingProgress)[progress.userId := PutProgress(ps, r)]
      ensures GetReadingProgress(progress.userId, progress.bookId) == Some(r)
      ensures forall u, b :: u != progress.userId || b != progress.bookId ==>
                GetReadingProgress(u, b) == old(GetReadingProgress(u, b))
    {
      var ps := ProgressOf(readingProgress, progress.userId);
      var k := FindIndex(ps, ForBook(progress.bookId));
      var id;
      if k >= 0 {
        id := ps[k].id;
      } else {
        id := currentProgressId;
        currentProgressId := currentProgressId + 1;
      }
      r := ReadingProgress(id, progress.userId, progress.bookId,
                           PagesReadOrDefault(progress.pagesRead), StatusOrDefault(progress.status), now);
      PutProgressSpec(readingProgress, progress.userId, old(currentProgressId), currentProgressId, r);
      readingProgress := readingProgress[progress.userId := PutProgress(ps, r)];
    }

    /** The user's reading list: each progress record with its book, skipping
        records whose book is not in the catalogue. */
    method GetUserReadingList(userId: string) returns (r: seq<ReadingEntry>)
      ensures r == ReadingListOf(ProgressOf(readingProgress, userId), books)
    {
      if userId !in readingProgress {
        return [];
      }
      var ps := readingProgress[userId];
      r := [];
      var i := 0;
      while i < |ps|
        invariant 0 <= i <= |ps|
        invariant r == ReadingListOf(ps[..i], books)
      {
        var progress := ps[i];
        var book := GetBookById(progress.bookId);
        assert ps[..i + 1][..i] == ps[..i];
        if book.Some? {
          r := r + [ReadingEntry(book.value, progress)];
        }
        i := i + 1;
      }
      assert ps[..i] == ps;
    }
  }
}
