/** The HTTP handlers' own logic: when the external catalogue is consulted,
    how its books are merged behind the local ones, the response envelope,
    the page offset and the status of a review update. */
module Routes {
  import opened Wrappers
  import opened Schema
  import opened JsArrays
  import opened JsStrings
  import opened Storage
  import opened ExternalApi

  /** Books per external page. */
  const PageSize := 40
  /** Below this many local matches the external catalogue is asked too. */
  const LocalEnough := 10
  const DefaultPopularLimit := 12

  // ===== page and offset =====

  /** `parseInt(req.query.page) || 0`; a missing parameter is `NaN`. */
  function PageOf(param: Option<string>): int
  {
    match param
    case None => 0
    case Some(p) => ParseInt(p).GetOr(0)
  }

  /** The page is the number the parameter spells, and 0 when there is none. */
  lemma PageOfSpec(n: int, p: Option<string>)
    ensures PageOf(Some(IntToString(n))) == n
    ensures p.None? || ParseInt(p.value).None? ==> PageOf(p) == 0
  {
    ParseIntRoundTrip(n);
  }

  /** The offset of a page in the external listing. */
  function StartIndex(page: int): (s: int)
    ensures s % PageSize == 0 && s / PageSize == page
    ensures page >= 0 <==> s >= 0
  {
    page * PageSize
  }

  // ===== the merge =====

  /** The duplicate test: the same title and the same author, exactly. */
  predicate SameEntry(a: Book, b: Book)
  {
    a.title == b.title && a.author == b.author
  }

  predicate HasEntry(books: seq<Book>, b: Book)
  {
    exists i :: 0 <= i < |books| && SameEntry(books[i], b)
  }

  /** `ext.forEach(book => { if (!combined.some(same) && combined.length < cap) combined.push(book) })`
      starting from `acc`; no cap when `cap` is `None`. */
  function Merge(acc: seq<Book>, ext: seq<Book>, cap: Option<int>): seq<Book>
    decreases |ext|
  {
    if ext == [] then acc
    else
      var b := ext[0];
      var acc' := if !HasEntry(acc, b) && (cap.None? || |acc| < cap.value) then acc + [b] else acc;
      Merge(acc', ext[1..], cap)
  }

  /** The loop itself: local books first, then each external book that is new. */
  method AppendNew(local: seq<Book>, ext: seq<Book>, cap: Option<int>) returns (combined: seq<Book>)
    ensures combined == Merge(local, ext, cap)
  {
    combined := local;
    var i := 0;
    while i < |ext|
      invariant 0 <= i <= |ext|
      invariant Merge(combined, ext[i..], cap) == Merge(local, ext, cap)
    {
      var book := ext[i];
      assert ext[i..][0] == book && ext[i..][1..] == ext[i + 1..];
      if !HasEntry(combined, book) && (cap.None? || |combined| < cap.value) {
        combined := combined + [book];
      }
      i := i + 1;
    }
  }

  /** The local books come first, unchanged and in their order. */
  lemma {:induction false} MergeKeepsLocal(acc: seq<Book>, ext: seq<Book>, cap: Option<int>)
    ensures acc <= Merge(acc, ext, cap)
    decreases |ext|
  {
    if ext != [] {
      var b := ext[0];
      var acc' := if !HasEntry(acc, b) && (cap.None? || |acc| < cap.value) then acc + [b] else acc;
      MergeKeepsLocal(acc', ext[1..], cap);
    }
  }

  /** No appended book repeats anything that came before it, local or
      external. */
  ghost predicate AppendedAreNew(local: seq<Book>, r: seq<Book>)
  {
    forall j, k :: 0 <= j < k < |r| && |local| <= k ==> !SameEntry(r[j], r[k])
  }

  lemma {:induction false} MergeAppendsNew(local: seq<Book>, acc: seq<Book>, ext: seq<Book>, cap: Option<int>)
    requires |local| <= |acc| && AppendedAreNew(local, acc)
    ensures AppendedAreNew(local, Merge(acc, ext, cap))
    decreases |ext|
  {
    if ext != [] {
      var b := ext[0];
      if !HasEntry(acc, b) && (cap.None? || |acc| < cap.value) {
        var acc' := acc + [b];
        forall j, k | 0 <= j < k < |acc'| && |local| <= k ensures !SameEntry(acc'[j], acc'[k]) {
          if k == |acc| {
            assert acc'[k] == b && acc'[j] == acc[j];
          }
        }
        MergeAppendsNew(local, acc', ext[1..], cap);
      } else {
        MergeAppendsNew(local, acc, ext[1..], cap);
      }
    }
  }

  /** The appended books keep their external order. */
  lemma {:induction false} MergeAppendsInOrder(acc: seq<Book>, ext: seq<Book>, cap: Option<int>)
    ensures |acc| <= |Merge(acc, ext, cap)|
    ensures IsSubsequence(Merge(acc, ext, cap)[|acc|..], ext)
    decreases |ext|
  {
    MergeKeepsLocal(acc, ext, cap);
    if ext != [] {
      var b := ext[0];
      var r := Merge(acc, ext, cap);
      if !HasEntry(acc, b) && (cap.None? || |acc| < cap.value) {
        var acc' := acc + [b];
        MergeAppendsInOrder(acc', ext[1..], cap);
        MergeKeepsLocal(acc', ext[1..], cap);
        assert r[|acc|..][0] == b;
        assert r[|acc|..][1..] == r[|acc'|..];
      } else {
        MergeAppendsInOrder(acc, ext[1..], cap);
      }
    }
  }

  /** Every external book ends up represented, unless the cap was reached. */
  lemma {:induction false} MergeCovers(acc: seq<Book>, ext: seq<Book>, cap: Option<int>)
    ensures forall b :: b in ext ==>
      HasEntry(Merge(acc, ext, cap), b) || (cap.Some? && |Merge(acc, ext, cap)| >= cap.value)
    decreases |ext|
  {
    if ext != [] {
      var b := ext[0];
      var acc' := if !HasEntry(acc, b) && (cap.None? || |acc| < cap.value) then acc + [b] else acc;
      var r := Merge(acc, ext, cap);
      MergeCovers(acc', ext[1..], cap);
      MergeKeepsLocal(acc', ext[1..], cap);
      if !HasEntry(acc, b) && (cap.None? || |acc| < cap.value) {
        assert SameEntry(acc'[|acc|], b);
      }
      if HasEntry(acc', b) {
        var i :| 0 <= i < |acc'| && SameEntry(acc'[i], b);
        assert r[i] == acc'[i];
      } else {
        assert cap.Some? && |acc'| >= cap.value;
      }
      assert forall x :: x in ext ==> x == b || x in ext[1..];
    }
  }

  /** With a cap, the merge never grows the list past it. */
  lemma {:induction false} MergeBounded(acc: seq<Book>, ext: seq<Book>, cap: int)
    requires |acc| <= cap
    ensures |Merge(acc, ext, Some(cap))| <= cap
    decreases |ext|
  {
    if ext != [] {
      var b := ext[0];
      var acc' := if !HasEntry(acc, b) && |acc| < cap then acc + [b] else acc;
      MergeBounded(acc', ext[1..], cap);
    }
  }

  /** Whether `ext[i]` repeats nothing local and nothing before it in `ext`. */
  predicate IsNewAt(local: seq<Book>, ext: seq<Book>, i: int)
    requires 0 <= i < |ext|
  {
    !HasEntry(local, ext[i]) && !HasEntry(ext[..i], ext[i])
  }

  /** The first copy of every external book not already local, in external
      order: what the merge appends when nothing caps it. */
  function FirstNew(local: seq<Book>, ext: seq<Book>): seq<Book>
    decreases |ext|
  {
    if ext == [] then []
    else
      var n := |ext| - 1;
      FirstNew(local, ext[..n]) + if IsNewAt(local, ext, n) then [ext[n]] else []
  }

  /** How many books the cap leaves room for behind `local`; `None` for no cap. */
  function RoomFor(local: seq<Book>, cap: Option<int>): Option<nat>
  {
    match cap
    case None => None
    case Some(c) => Some(if |local| < c then c - |local| else 0)
  }

  /** The first `room` books of `s`, or all of them when there is no room limit. */
  function Fits(s: seq<Book>, room: Option<nat>): seq<Book>
  {
    if room.None? || |s| <= room.value then s else s[..room.value]
  }

  lemma HasEntryConcat(a: seq<Book>, c: seq<Book>, b: Book)
    ensures HasEntry(a + c, b) <==> HasEntry(a, b) || HasEntry(c, b)
  {
    if HasEntry(a + c, b) {
      var i :| 0 <= i < |a + c| && SameEntry((a + c)[i], b);
      if i >= |a| {
        assert SameEntry(c[i - |a|], b);
      }
    }
    if HasEntry(a, b) {
      var i :| 0 <= i < |a| && SameEntry(a[i], b);
      assert (a + c)[i] == a[i];
    }
    if HasEntry(c, b) {
      var i :| 0 <= i < |c| && SameEntry(c[i], b);
      assert (a + c)[|a| + i] == c[i];
    }
  }

  lemma HasEntrySame(s: seq<Book>, x: Book, b: Book)
    requires SameEntry(x, b)
    ensures HasEntry(s, x) <==> HasEntry(s, b)
  {
    if HasEntry(s, x) {
      var i :| 0 <= i < |s| && SameEntry(s[i], x);
      assert SameEntry(s[i], b);
    }
    if HasEntry(s, b) {
      var i :| 0 <= i < |s| && SameEntry(s[i], b);
      assert SameEntry(s[i], x);
    }
  }

  lemma FirstNewSnoc(local: seq<Book>, pre: seq<Book>, b: Book)
    ensures FirstNew(local, pre + [b]) ==
            FirstNew(local, pre) + if !HasEntry(local, b) && !HasEntry(pre, b) then [b] else []
  {
    var ext := pre + [b];
    assert ext != [] && ext[..|ext| - 1] == pre && ext[|ext| - 1] == b;
  }

  /** A book matches something in `local` followed by the first copies iff it
      matches something local or external. */
  lemma {:induction false} FirstNewEntries(local: seq<Book>, pre: seq<Book>, b: Book)
    ensures HasEntry(local + FirstNew(local, pre), b) <==> HasEntry(local, b) || HasEntry(pre, b)
    decreases |pre|
  {
    if pre == [] {
      assert local + FirstNew(local, pre) == local;
    } else {
      var p0, x := pre[..|pre| - 1], pre[|pre| - 1];
      assert pre == p0 + [x];
      FirstNewSnoc(local, p0, x);
      FirstNewEntries(local, p0, b);
      var xs := if !HasEntry(local, x) && !HasEntry(p0, x) then [x] else [];
      assert local + FirstNew(local, pre) == (local + FirstNew(local, p0)) + xs;
      HasEntryConcat(local + FirstNew(local, p0), xs, b);
      HasEntryConcat(p0, [x], b);
      if SameEntry(x, b) {
        assert HasEntry([x], b);
        HasEntrySame(local, x, b);
        HasEntrySame(p0, x, b);
      } else {
        assert !HasEntry([x], b);
        assert !HasEntry(xs, b);
      }
    }
  }

  /** One step of the merge after `pre` has been merged appends exactly the
      next first copy, while room is left. */
  lemma MergeStepFirstNew(local: seq<Book>, pre: seq<Book>, b: Book, cap: Option<int>)
    ensures var room := RoomFor(local, cap);
      var acc := local + Fits(FirstNew(local, pre), room);
      (if !HasEntry(acc, b) && (cap.None? || |acc| < cap.value) then acc + [b] else acc) ==
        local + Fits(FirstNew(local, pre + [b]), room)
  {
    var room := RoomFor(local, cap);
    var f := FirstNew(local, pre);
    var acc := local + Fits(f, room);
    FirstNewSnoc(local, pre, b);
    if room.None? || |f| < room.value {
      assert acc == local + f;
      FirstNewEntries(local, pre, b);
      HasEntryConcat(local, f, b);
      assert cap.None? || |acc| < cap.value;
    } else {
      assert !(cap.None? || |acc| < cap.value);
      var f' := FirstNew(local, pre + [b]);
      assert f <= f';
      assert Fits(f', room) == f'[..room.value] == f[..room.value];
    }
  }

  lemma MergeUnfold(acc: seq<Book>, rest: seq<Book>, cap: Option<int>)
    requires rest != []
    ensures var b := rest[0];
      Merge(acc, rest, cap) ==
        Merge(if !HasEntry(acc, b) && (cap.None? || |acc| < cap.value) then acc + [b] else acc, rest[1..], cap)
  {
  }

  lemma SnocThenRest<T>(pre: seq<T>, rest: seq<T>)
    requires rest != []
    ensures (pre + [rest[0]]) + rest[1..] == pre + rest
  {
    assert rest == [rest[0]] + rest[1..];
  }

  /** Merging the rest after the first copies of `pre` gives the first copies
      of the whole external list, cut at the cap. */
  lemma {:induction false} MergeFirstNew(local: seq<Book>, pre: seq<Book>, rest: seq<Book>, cap: Option<int>)
    ensures Merge(local + Fits(FirstNew(local, pre), RoomFor(local, cap)), rest, cap) ==
            local + Fits(FirstNew(local, pre + rest), RoomFor(local, cap))
    decreases |rest|
  {
    if rest == [] {
      assert pre + rest == pre;
    } else {
      var room := RoomFor(local, cap);
      MergeUnfold(local + Fits(FirstNew(local, pre), room), rest, cap);
      MergeStepFirstNew(local, pre, rest[0], cap);
      MergeFirstNew(local, pre + [rest[0]], rest[1..], cap);
      SnocThenRest(pre, rest);
    }
  }

  /** The merged list, in one statement: local books first, then new books
      from the external list in its order, none repeating an earlier title
      and author, and every external book represented unless the cap was
      reached. Exactly: the local books, then the first copies of the new
      external books, as many as the cap leaves room for. */
  lemma MergeSpec(local: seq<Book>, ext: seq<Book>, cap: Option<int>)
    ensures var r := Merge(local, ext, cap);
      && r == local + Fits(FirstNew(local, ext), RoomFor(local, cap))
      && local <= r
      && IsSubsequence(r[|local|..], ext)
      && AppendedAreNew(local, r)
      && (forall b :: b in ext ==> HasEntry(r, b) || (cap.Some? && |r| >= cap.value))
      && (cap.Some? && |local| <= cap.value ==> |r| <= cap.value)
  {
    assert local + Fits(FirstNew(local, []), RoomFor(local, cap)) == local && [] + ext == ext;
    MergeFirstNew(local, [], ext, cap);
    MergeKeepsLocal(local, ext, cap);
    MergeAppendsInOrder(local, ext, cap);
    MergeAppendsNew(local, local, ext, cap);
    MergeCovers(local, ext, cap);
    if cap.Some? && |local| <= cap.value {
      MergeBounded(local, ext, cap.value);
    }
  }

  // ===== the search and category envelope =====

  datatype Envelope = Envelope(books: seq<Book>, totalItems: int, currentPage: int, itemsPerPage: int)

  /** Whether the external catalogue is consulted for a search or a category. */
  predicate ConsultExternal(local: seq<Book>)
  {
    |local| < LocalEnough
  }

  /** The response for `local` matches; `ext` is the external answer when it
      was asked. */
  function Respond(local: seq<Book>, ext: Option<SearchResult>, page: int): Envelope
  {
    match ext
    case None => Envelope(local, |local|, 0, |local|)
    case Some(r) => Envelope(Merge(local, r.books, None), r.totalItems, page, PageSize)
  }

  /** Consulted: the external total, the requested page, forty per page, and
      every external book represented behind the local ones. Not consulted:
      the local books alone, described by their own count. */
  lemma RespondSpec(local: seq<Book>, ext: Option<SearchResult>, page: int)
    ensures var e := Respond(local, ext, page);
      && local <= e.books
      && (ext.None? ==> e == Envelope(local, |local|, 0, |local|))
      && (ext.Some? ==>
            && e.totalItems == ext.value.totalItems && e.currentPage == page && e.itemsPerPage == PageSize
            && e.books == local + FirstNew(local, ext.value.books)
            && AppendedAreNew(local, e.books)
            && IsSubsequence(e.books[|local|..], ext.value.books)
            && forall b :: b in ext.value.books ==> HasEntry(e.books, b))
  {
    if ext.Some? {
      MergeSpec(local, ext.value.books, None);
    }
  }

  /** `GET /api/books/search`. */
  method SearchRoute(store: MemStorage, client: GoogleBooksClient, query: string, pageParam: Option<string>,
                     requestedAt: int, receivedAt: int, fetch: FetchOutcome) returns (e: Envelope)
    modifies client`cache
    ensures var local := store.SearchBooks(query);
      var page := PageOf(pageParam);
      if ConsultExternal(local) then
        var step := SearchStep(old(client.cache), query, StartIndex(page), requestedAt, receivedAt, fetch);
        e == Respond(local, Some(step.result), page) && client.cache == step.cache
      else
        e == Respond(local, None, page) && client.cache == old(client.cache)
  {
    var page := PageOf(pageParam);
    var startIndex := StartIndex(page);
    var books := store.SearchBooks(query);
    if |books| < LocalEnough {
      var external := client.SearchGoogleBooks(query, startIndex, requestedAt, receivedAt, fetch);
      var combined := AppendNew(books, external.books, None);
      return Envelope(combined, external.totalItems, page, PageSize);
    }
    return Envelope(books, |books|, 0, |books|);
  }

  /** `GET /api/categories/:category`. */
  method CategoryRoute(store: MemStorage, client: GoogleBooksClient, category: string, pageParam: Option<string>,
                       requestedAt: int, receivedAt: int, fetch: FetchOutcome) returns (e: Envelope)
    modifies client`cache
    ensures var local := store.GetBooksByCategory(category);
      var page := PageOf(pageParam);
      if ConsultExternal(local) then
        var step := SearchStep(old(client.cache), "subject:" + category, StartIndex(page),
                               requestedAt, receivedAt, fetch);
        e == Respond(local, Some(step.result), page) && client.cache == step.cache
      else
        e == Respond(local, None, page) && client.cache == old(client.cache)
  {
    var page := PageOf(pageParam);
    var startIndex := StartIndex(page);
    var localBooks := store.GetBooksByCategory(category);
    if |localBooks| < LocalEnough {
      var external := client.GetBooksByCategory(category, startIndex, requestedAt, receivedAt, fetch);
      var combined := AppendNew(localBooks, external.books, None);
      return Envelope(combined, external.totalItems, page, PageSize);
    }
    return Envelope(localBooks, |localBooks|, 0, |localBooks|);
  }

  // ===== popular =====

  /** `req.query.limit ? parseInt(req.query.limit) : 12`; `None` is `NaN`. */
  function PopularLimit(param: Option<string>): Option<int>
  {
    if param.None? || param.value == "" then Some(DefaultPopularLimit) else ParseInt(param.value)
  }

  /** `local.length < limit / 2`; false for a `NaN` limit. */
  predicate ConsultPopular(local: seq<Book>, limit: Option<int>)
  {
    limit.Some? && 2 * |local| < limit.value
  }

  /** The popular list: local books, topped up from the external ones up to
      `limit` when the external list was asked. */
  function PopularResponse(local: seq<Book>, ext: Option<seq<Book>>, limit: int): seq<Book>
  {
    match ext
    case None => local
    case Some(books) => Merge(local, books, Some(limit))
  }

  /** The local books lead, appended books are new, and the list stays
      within `limit` once the local part does. */
  lemma PopularResponseSpec(local: seq<Book>, ext: Option<seq<Book>>, limit: int)
    requires |local| <= limit
    ensures var r := PopularResponse(local, ext, limit);
      && local <= r && |r| <= limit && AppendedAreNew(local, r)
      && (ext.Some? ==> forall b :: b in ext.value ==> HasEntry(r, b) || |r| == limit)
      && (ext.Some? ==> r == local + Fits(FirstNew(local, ext.value), Some(limit - |local|)))
  {
    if ext.Some? {
      MergeSpec(local, ext.value, Some(limit));
    } else {
      assert AppendedAreNew(local, local);
    }
  }

  /** `GET /api/popular`. */
  method PopularRoute(store: MemStorage, client: GoogleBooksClient, limitParam: Option<string>,
                      requestedAt: int, receivedAt: int, fetch: FetchOutcome) returns (r: seq<Book>)
    modifies client`cache
    ensures var limit := PopularLimit(limitParam);
      var local := store.GetPopularBooks(limit.GetOr(0));
      if ConsultPopular(local, limit) then
        var step := SearchStep(old(client.cache), PopularQuery, 0, requestedAt, receivedAt, fetch);
        r == PopularResponse(local, Some(SliceTo(step.result.books, limit.value)), limit.value)
        && client.cache == step.cache
      else
        r == local && client.cache == old(client.cache)
    ensures var limit := PopularLimit(limitParam); limit.Some? && limit.value >= 0 ==> |r| <= limit.value
  {
    var limit := PopularLimit(limitParam);
    var localPopularBooks := store.GetPopularBooks(limit.GetOr(0));
    if limit.Some? && 2 * |localPopularBooks| < limit.value {
      var externalPopularBooks := client.GetPopularBooks(limit.value, requestedAt, receivedAt, fetch);
      r := AppendNew(localPopularBooks, externalPopularBooks, Some(limit.value));
      PopularResponseSpec(localPopularBooks, Some(externalPopularBooks), limit.value);
    } else {
      r := localPopularBooks;
    }
  }

  // ===== review update =====

  datatype Reply = Reply(status: int, body: Result<BookReview>)

  const InvalidReviewId := "Invalid review ID"
  const UpdateFailed := "Failed to update review"

  /** The status of a failed update: 404 for a missing review, 500 otherwise. */
  function UpdateErrorReply(message: string): (r: Reply)
    ensures r.status == 404 <==> message == ReviewNotFound
    ensures r.status == 500 <==> message != ReviewNotFound
    ensures r.body.Err?
  {
    if message == ReviewNotFound then Reply(404, Err(ReviewNotFound)) else Reply(500, Err(UpdateFailed))
  }

  /** `PUT /api/reviews/:reviewId` with the body's rating and comment. */
  method PutReview(store: MemStorage, reviewIdParam: string, rating: Option<int>, comment: Option<string>)
    returns (reply: Reply)
    requires store.Valid()
    modifies store`bookReviews
    ensures store.Valid()
    ensures ParseInt(reviewIdParam).None? ==>
      reply == Reply(400, Err(InvalidReviewId)) && store.bookReviews == old(store.bookReviews)
    ensures ParseInt(reviewIdParam).Some? ==>
      match Locate(store.reviewOrder, old(store.bookReviews), ParseInt(reviewIdParam).value)
      case None => reply == Reply(404, Err(ReviewNotFound)) && store.bookReviews == old(store.bookReviews)
      case Some(loc) =>
        && reply.status == 200
        && reply.body == Ok(ApplyPatch(ReviewsOf(old(store.bookReviews), loc.bookId)[loc.index],
                                       ReviewPatch(None, None, rating, comment)))
        && store.bookReviews == PatchAt(old(store.bookReviews), loc, ReviewPatch(None, None, rating, comment))
  {
    var reviewId := ParseInt(reviewIdParam);
    if reviewId.None? {
      return Reply(400, Err(InvalidReviewId));
    }
    var updated := store.UpdateBookReview(reviewId.value, ReviewPatch(None, None, rating, comment));
    match updated
    case Ok(review) =>
      reply := Reply(200, Ok(review));
    case Err(message) =>
      reply := UpdateErrorReply(message);
  }
}
