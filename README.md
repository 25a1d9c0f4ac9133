# Book recommendations: the server core in Dafny

This project models the server of a book-recommendation web application and
proves properties of that model. The server keeps an in-memory catalogue of
ten seeded books, with per-user favourites, genre preferences, reviews and
reading progress. Its search, category and popular-books endpoints top up
the local results with books from the Google Books API, behind a one-hour
cache.

The model follows the source's structure:

- `wrappers.dfy`: `Option` and `Result`.
- `js_arrays.dfy`: the parts of JavaScript arrays the server relies on:
  - `filter`, `findIndex` and `slice(0, end)`, with negative ends;
  - the stable `sort`, as a stable insertion sort by a key, highest first.
- `js_strings.dfy`:
  - `toLowerCase` and `includes`;
  - `parseInt` in base 10, and integer-to-text;
  - `parseFloat` of a well-formed decimal rating;
  - a number's text for a rating given in tenths.
- `schema.dfy`:
  - the record shapes of `shared/schema.ts` and their insert shapes;
  - the defaults for reading progress;
  - the review patch that keeps `id` and `createdAt`.
- `storage.dfy`: `MemStorage` as a class.
  - JavaScript `Map` and `Set` iteration order is observable. So:
    - the book map is a sequence of books with distinct ids;
    - each favourites set is a sequence without duplicates;
    - the review map is a `map` plus the sequence of its keys in insertion order;
    - each user's progress map is a sequence of records, one per book.
  - The queries are functions of the state.
  - The operations that change the store are methods that state the whole new state and keep `Valid()`. `Valid()` covers distinct book ids, every record id below its counter, favourite sets without duplicates, review-list keys listed once in insertion order, and one progress record per user and book. Review ids are below their counter but distinctness across lists is not part of `Valid()`; the review scans are pinned to the first match instead.
  - The loops over review lists and progress maps are proved against specification functions. These are `Locate`, `AllReviews` and `ReadingListOf`.
- `external_api.dfy`:
  - the mapping from a Google Books volume to a catalogue `Book`: the id from digits, the ISBN pick, and the defaults;
  - the cache step `SearchStep`, as a function of the old cache, the query, the clock and the fetch outcome;
  - a `GoogleBooksClient` class holding the cache, whose methods are tied to `SearchStep`.
- `routes.dfy`:
  - the page and offset;
  - the threshold decisions;
  - the dedup-append merge, as the specification `Merge` and the loop `AppendNew` proved equal to it;
  - the search and category envelope, and the popular list;
  - the review-update status mapping.

Three behaviours are modelled as the code has them:

- `searchBooks("")` returns every book, because every string contains the empty string.
- The ISBN is the first identifier of type ISBN_13 or ISBN_10, whichever comes first in the list. ISBN-13 is not preferred.
- A popular `limit` that is not a number (`Routes.PopularLimit` gives `None` for `NaN`) yields the local popular list cut at 0, that is an empty list, and no request.

Default arguments are Dafny default parameter values on the corresponding members: `getRecommendedBooks` and `getPopularBooks` default `limit` to 6, `searchGoogleBooks` and `getBooksByCategory` default `startIndex` to 0, and the external `getPopularBooks` defaults `limit` to 40.

Inputs the code takes from the environment become parameters:

- The clock (`Date.now()`, `new Date()`) is passed in: `now` for records, and `requestedAt`/`receivedAt` for the cache check and the cache store.
- The outcome of each HTTP request to Google Books is passed in as a `FetchOutcome` or `DetailOutcome`.

## Model

| member | source | states |
|---|---|---|
| Schema.WithId | Book-recommendations/shared/schema.ts:5-17 | a book is an id plus the insert shape: stripping the id gives back the insert record |
| Schema.BookIsIdPlusInsertShape | Book-recommendations/shared/schema.ts:49 | every book is the insert shape with its id added |
| Schema.NewReview | Book-recommendations/shared/schema.ts:31-38 | a stored review is the insert shape plus id and creation time (no rating range is enforced) |
| Schema.ApplyPatch | Book-recommendations/server/storage.ts:346-352 | a patch keeps `id` and `createdAt` and overwrites exactly the fields it carries |
| Schema.StatusOrDefault | Book-recommendations/server/storage.ts:413 | a missing or empty status becomes "not_started"; a non-empty status is kept |
| Schema.PagesReadOrDefault | Book-recommendations/server/storage.ts:414 | missing pages read become 0; given pages are kept |
| JsArrays.SortDescendingBySpec | Book-recommendations/server/storage.ts:311-312 | the sort is ordered highest first, is a permutation, and keeps equal keys in their original order |
| JsArrays.FindIndex | Book-recommendations/server/storage.ts:343 | `findIndex` gives the first matching position, or -1 when nothing matches |
| JsArrays.SliceTo | Book-recommendations/server/storage.ts:313 | `slice(0, end)` is a prefix of length `min(end, n)` for `end >= 0` and `max(n + end, 0)` for a negative end |
| JsStrings.IncludesAt | Book-recommendations/server/storage.ts:221-222 | `includes` holds iff the query occurs at some position |
| JsStrings.ParseIntRoundTrip | Book-recommendations/server/routes.ts:26 | `parseInt` reads back the decimal text of every integer |
| JsStrings.ParseIntNaN | Book-recommendations/server/routes.ts:26 | text starting with neither a sign nor a digit is `NaN` |
| JsStrings.TenthsRoundTrip | Book-recommendations/server/externalApi.ts:52 | the text of a rating parses back to that rating |
| Storage.SearchSpec | Book-recommendations/server/storage.ts:218-224 | search keeps, in order and with multiplicity, exactly the books whose lower-cased title or author contains the lower-cased query |
| Storage.SearchEmptyQueryIsAll | Book-recommendations/server/storage.ts:219-223 | searching for "" returns every book |
| Storage.FilterByGenresSpec | Book-recommendations/server/storage.ts:226-232 | no genres gives every book; otherwise the books having one of the genres exactly, in order |
| Storage.ByCategorySpec | Book-recommendations/server/storage.ts:316-320 | the books having a genre equal to the category ignoring case, in order |
| Storage.CategoryIgnoresCaseGenresDoNot | Book-recommendations/server/storage.ts:230 | a "Fiction" book is in category "fiction" but not in the genre filter for "fiction" |
| Storage.FindBook | Book-recommendations/server/storage.ts:214-216 | lookup by id finds a book iff one has that id |
| Storage.LookupAllSpec | Book-recommendations/server/storage.ts:234-238 | lookup of several ids is the found ids, in order and with repeats, each mapped to its book |
| Storage.LookupAllMembers | Book-recommendations/server/storage.ts:234-238 | every looked-up book is in the catalogue and has a requested id |
| Storage.SortByRatingSpec | Book-recommendations/server/storage.ts:311-312 | sorting by rating is ordered highest first, is a permutation and is stable |
| Storage.PopularSpec | Book-recommendations/server/storage.ts:307-314 | the popular list is `min(limit, n)` books, ordered by rating, drawn from the catalogue, ties in insertion order; no book left out is rated higher than one returned |
| Storage.RecommendedSpec | Book-recommendations/server/storage.ts:294-305 | with a non-empty preference, a prefix of the genre-filtered books of length exactly `min(limit, matches)`, each carrying a preferred genre; otherwise the popular list |
| Storage.AddToSetSpec | Book-recommendations/server/storage.ts:257 | `set.add` makes the element present, keeps the others in order, adds no duplicate |
| Storage.RemoveFromSetSpec | Book-recommendations/server/storage.ts:270 | `set.delete` removes exactly that element, keeps no duplicates, keeps the other elements in their order, and does nothing for an absent one |
| Storage.Locate | Book-recommendations/server/storage.ts:341-345 | a book in insertion order whose list holds the id, at the first position in that list holding it; none iff no list holds it |
| Storage.LocateFirst | Book-recommendations/server/storage.ts:341-345 | no book before the located one in insertion order holds a review with the id: the located book is the first |
| Storage.PatchAtValid | Book-recommendations/server/storage.ts:354 | patching in place changes only that review and keeps the store's invariant |
| Storage.RemoveAtValid | Book-recommendations/server/storage.ts:368 | the splice removes exactly the located review (the list is its prefix and suffix around it), changes no other list, and keeps the invariant |
| Storage.RemoveAtCount | Book-recommendations/server/storage.ts:368 | the splice leaves the book's list with exactly one copy fewer of the located review, as a multiset |
| Storage.AllReviewsMembers | Book-recommendations/server/storage.ts:377-381 | the concatenated review lists hold exactly the reviews of the listed books |
| Storage.PutProgressSpec | Book-recommendations/server/storage.ts:403-417 | storing a progress record keeps the invariant, makes it the one found for its user and book, and leaves every other lookup unchanged |
| Storage.ReadingListSpec | Book-recommendations/server/storage.ts:428-434 | the reading list pairs, in order, each record whose book exists with that book and skips the others |
| Storage.MemStorage.constructor | Book-recommendations/server/storage.ts:67-207 | a fresh store holds the ten sample books with ids 1 to 10 in order, empty maps, counters at 1 and 11 |
| Storage.MemStorage.AddBooks | Book-recommendations/server/storage.ts:204-207 | each inserted book is appended under the next id, in order, and the counter advances by their number |
| Storage.MemStorage.IsFavoriteBook | Book-recommendations/server/storage.ts:274-277 | a favourite needs the user's set to exist and is held in it exactly once |
| Storage.MemStorage.GetFavoriteBooks | Book-recommendations/server/storage.ts:240-248 | no favourites, or an empty set, gives []; otherwise the favourite ids that have a book, in set order, each mapped to its book; a book is returned iff it is in the catalogue under a favourite id |
| Storage.MemStorage.GetUserPreferences | Book-recommendations/server/storage.ts:279-281 | a preference exists iff the user set one, and it belongs to that user with an id already handed out; UpdateUserPreferences states that it then returns exactly the record stored |
| Storage.MemStorage.GetBookReviews | Book-recommendations/server/storage.ts:322-324 | a book with no list gives []; every review returned has an id below the counter and is among all the store's reviews; AddBookReview, UpdateBookReview and DeleteBookReview state what it returns after each change |
| Storage.MemStorage.GetReadingProgress | Book-recommendations/server/storage.ts:386-393 | an unknown user gives none; a record found is for that book, user and list, and none is found iff the user has no record for the book |
| Storage.MemStorage.AddFavoriteBook | Book-recommendations/server/storage.ts:250-264 | the pair becomes a favourite, other users are untouched, and every add takes a fresh id, even for a present pair |
| Storage.MemStorage.RemoveFavoriteBook | Book-recommendations/server/storage.ts:266-272 | the pair is no longer a favourite, every other pair is unchanged, and an unknown user or book changes nothing |
| Storage.MemStorage.UpdateUserPreferences | Book-recommendations/server/storage.ts:283-292 | an existing user keeps their id and the counter; a new one takes the counter; the genres are replaced; afterwards GetUserPreferences gives the new record for that user and the old answer for every other user |
| Storage.MemStorage.AddBookReview | Book-recommendations/server/storage.ts:326-337 | the review is appended to its book's list with an id above every existing one; afterwards GetBookReviews of that book is the old list plus the new review, and of every other book is unchanged |
| Storage.MemStorage.FindReview | Book-recommendations/server/storage.ts:341-345 | the scan over book keys finds exactly `Locate`'s answer |
| Storage.MemStorage.UpdateBookReview | Book-recommendations/server/storage.ts:339-360 | the first review with the id is patched in place, so GetBookReviews of its book has the patched review at that index and every other book's answer is unchanged; an unknown id gives "Review not found" and changes nothing |
| Storage.MemStorage.DeleteBookReview | Book-recommendations/server/storage.ts:362-372 | the first review with the id is spliced out, so GetBookReviews of its book is the old list without that index and every other book's answer is unchanged; an unknown id changes nothing |
| Storage.MemStorage.GetUserReviews | Book-recommendations/server/storage.ts:374-384 | the user's reviews, book after book in insertion order; exactly the reviews that user wrote |
| Storage.MemStorage.UpdateReadingProgress | Book-recommendations/server/storage.ts:395-419 | an existing pair keeps its record id, a new pair consumes one counter value; defaults for pages and status; lookups for other pairs unchanged |
| Storage.MemStorage.GetUserReadingList | Book-recommendations/server/storage.ts:420-437 | the loop computes `ReadingListOf` of the user's records |
| ExternalApi.KeepDigits | Book-recommendations/server/externalApi.ts:38 | stripping non-digits leaves only digits |
| ExternalApi.KeepDigitsSpec | Book-recommendations/server/externalApi.ts:38 | the stripped text is the digit subsequence of the id: every digit kept, in order and as often as it occurs, and nothing else |
| ExternalApi.VolumeIdSpec | Book-recommendations/server/externalApi.ts:38 | the id is the value of the first nine digits when that is non-zero, then in 1..999999999, and otherwise `index + 1000000` |
| ExternalApi.FallbackIdsDistinct | Book-recommendations/server/externalApi.ts:85 | two fallback ids in one response differ |
| ExternalApi.FallbackMayCollideWithDigits | Book-recommendations/server/externalApi.ts:38 | a digit id can equal another volume's fallback id |
| ExternalApi.PickIsbn | Book-recommendations/server/externalApi.ts:41-43 | the ISBN is the identifier of the first ISBN_13-or-ISBN_10 entry, "" when there is none |
| ExternalApi.MapVolumeKeeps | Book-recommendations/server/externalApi.ts:46-57 | every field the volume gives, when not empty, is kept; present categories are kept even when empty |
| ExternalApi.MapVolumeRating | Book-recommendations/server/externalApi.ts:52 | the rating text of the book built from a volume's fields reads back as the volume's rating, 0 when missing, whatever the id |
| ExternalApi.MapVolumeDefaults | Book-recommendations/server/externalApi.ts:46-57 | a volume with nothing gets the defaults; absent categories become ["Uncategorized"], an empty list stays empty |
| ExternalApi.MapItems | Book-recommendations/server/externalApi.ts:85 | each volume is mapped with its position |
| ExternalApi.CacheKeyInjective | Book-recommendations/server/externalApi.ts:65 | different (query, offset) pairs never share a cache key |
| ExternalApi.SearchHit | Book-recommendations/server/externalApi.ts:68-73 | a fresh entry answers from the cache whatever the network would say, with total 1000000 or 0 |
| ExternalApi.SearchFailure | Book-recommendations/server/externalApi.ts:97-100 | a failed request gives no books, total 0, and leaves the cache unchanged |
| ExternalApi.SearchStores | Book-recommendations/server/externalApi.ts:85-96 | a fetched page is mapped, stored with its arrival time, and returned with `totalItems` or else the page length; other entries unchanged |
| ExternalApi.EntrySurvives | Book-recommendations/server/externalApi.ts:65-96 | any run of searches under other keys leaves a cache entry exactly as it was |
| ExternalApi.SearchReplay | Book-recommendations/server/externalApi.ts:64-96 | repeating a search within the hour returns the same books without a request, after any sequence of searches for other (query, offset) pairs |
| ExternalApi.SearchExpires | Book-recommendations/server/externalApi.ts:68 | after an hour the entry is not used and the request decides the answer |
| ExternalApi.GoogleBooksClient.SearchGoogleBooks | Book-recommendations/server/externalApi.ts:64-101 | the call's result and new cache are `SearchStep` of the old cache |
| ExternalApi.GoogleBooksClient.GetBooksByCategory | Book-recommendations/server/externalApi.ts:103-106 | a category is the search `subject:<category>` |
| ExternalApi.GoogleBooksClient.GetPopularBooks | Book-recommendations/server/externalApi.ts:133-136 | the fixed fiction query at offset 0, cut at `limit` |
| ExternalApi.GetBookDetails | Book-recommendations/server/externalApi.ts:108-130 | a valid volume is mapped at position 0; any failure gives nothing |
| Routes.PageOfSpec | Book-recommendations/server/routes.ts:26 | the page is the number the parameter spells, and 0 when it is missing or not a number |
| Routes.StartIndex | Book-recommendations/server/routes.ts:27 | the offset is a multiple of forty whose quotient is the page, negative exactly for a negative page |
| Routes.AppendNew | Book-recommendations/server/routes.ts:37-44 | the push loop computes `Merge` |
| Routes.MergeSpec | Book-recommendations/server/routes.ts:37-44 | exactly the local books followed by `FirstNew`, the first copy of each external book whose title and author match nothing local or earlier, cut to the room the cap leaves; hence local books first, appended books in external order, none repeating an earlier entry, every external book represented unless the cap was reached, never past the cap |
| Routes.RespondSpec | Book-recommendations/server/routes.ts:33-59 | consulted: external total, requested page, 40 per page, and the local books followed by the first copies of the new external books; not consulted: local books with their own count, page 0 |
| Routes.SearchRoute | Book-recommendations/server/routes.ts:23-59 | the search response is `Respond` of the local matches, asking Google only below 10 local matches |
| Routes.CategoryRoute | Book-recommendations/server/routes.ts:232-269 | the category response is `Respond` of the local category books, with the `subject:` search below 10 |
| Routes.PopularResponseSpec | Book-recommendations/server/routes.ts:192-200 | the popular list is the local books followed by the first copies of the new external books, as many as fit under `limit`; so it stays within `limit` and appends only new books |
| Routes.PopularRoute | Book-recommendations/server/routes.ts:180-205 | Google is asked only when fewer than `limit / 2` local books; the result never exceeds `limit` |
| Routes.UpdateErrorReply | Book-recommendations/server/routes.ts:331-336 | "Review not found" maps to 404, every other error to 500 |
| Routes.PutReview | Book-recommendations/server/routes.ts:317-337 | a non-numeric id gives 400 and changes nothing; an unknown id gives 404; otherwise 200 with the patched review |

## Left out

- Network, JSON decoding and logging: the HTTP requests, `response.json()` and `console.error` are not modelled. The model takes each request's outcome as a parameter.
- Time: the clock is a parameter.
- Async: every operation is synchronous, and concurrent requests that interleave are not modelled.
- Express and zod wiring: routes other than search, category, popular and review update are not modelled. Neither are the zod validation errors, which give 400.
- Seed text: the sample books' descriptions and cover links are left as "". Only their titles, authors, genres, ratings and other short fields, their order and ids 1 to 10 are modelled.
- JsStrings.ToLowerCase: only ASCII letters are lowered. The Unicode case mapping of `toLowerCase` is not modelled.
- JsStrings.ParseInt: only base-10 text is modelled. A `0x` prefix would switch `parseInt` to hexadecimal, and that is not modelled. White space is the ASCII set; Unicode spaces are not included.
- Storage.Score: ratings are exact decimals, not IEEE doubles. Any rating that is not digits with an optional fraction ranks lowest. That includes text `parseFloat` does read, such as " 4.5" or "4.", and text giving `NaN`, for which the comparator is inconsistent.
- ExternalApi.VolumeInfo: the average rating is a count of tenths. Ratings with more decimals, and the `Number` text of doubles in general, are not modelled.
- Routes.PutReview: the route always builds the patch from the body's `rating` and `comment`. A field missing from the body would overwrite the stored field with `undefined`. The model cannot hold `undefined` in a review, so a missing field is passed as "not patched". The body's values are also unvalidated JSON: a string, a fraction or `null` can be stored as the rating. The model types them as an optional integer and an optional string.
- Schema.ApplyPatch: a key that is present but `undefined` is not told apart from an absent key.
- ExternalApi.GetBookDetails: a volume whose `volumeInfo` is `null` makes the mapping throw, which gives `null`. The model reports that through the `DetailMalformed` outcome.
- Numbers are doubles in the source and unbounded integers in the model. `parseInt` of text above 2^53 rounds, and `${startIndex}` prints 1e21 and above in exponent form. Routes.PageOfSpec and ExternalApi.CacheKeyInjective hold for the exact integers and do not cover those ranges.
- The `maxResults=40` parameter of the Google Books request URL is part of the request, which is not modelled.
