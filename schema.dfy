/** The record shapes shared by the server and the client: the five stored
    entities, the shapes accepted on insert, and their defaults. */
module Schema {
  import opened Wrappers

  /** A clock reading; the model never inspects it. */
  type Timestamp = int

  /** A catalogue entry; `rating` is decimal text such as "4.5". */
  datatype Book = Book(
    id: int,
    title: string,
    author: string,
    description: string,
    coverImage: string,
    genres: seq<string>,
    rating: string,
    pages: int,
    published: string,
    isbn: string,
    language: string)

  /** A book without its id. */
  datatype InsertBook = InsertBook(
    title: string,
    author: string,
    description: string,
    coverImage: string,
    genres: seq<string>,
    rating: string,
    pages: int,
    published: string,
    isbn: string,
    language: string)

  datatype UserFavorite = UserFavorite(id: int, userId: string, bookId: int)
  datatype InsertUserFavorite = InsertUserFavorite(userId: string, bookId: int)

  datatype UserPreference = UserPreference(id: int, userId: string, genres: seq<string>)
  datatype InsertUserPreference = InsertUserPreference(userId: string, genres: seq<string>)

  /** A review; its `rating` is any integer, no range is enforced. */
  datatype BookReview = BookReview(
    id: int, userId: string, bookId: int, rating: int, comment: string, createdAt: Timestamp)
  datatype InsertBookReview = InsertBookReview(
    userId: string, bookId: int, rating: int, comment: string)

  /** A partial review: the fields that are present overwrite. */
  datatype ReviewPatch = ReviewPatch(
    userId: Option<string>, bookId: Option<int>, rating: Option<int>, comment: Option<string>)

  datatype ReadingProgress = ReadingProgress(
    id: int, userId: string, bookId: int, pagesRead: int, status: string, lastUpdated: Timestamp)
  /** `pagesRead` and `status` have column defaults, so they may be left out. */
  datatype InsertReadingProgress = InsertReadingProgress(
    userId: string, bookId: int, pagesRead: Option<int>, status: Option<string>)

  const DefaultPagesRead: int := 0
  const DefaultStatus: string := "not_started"

  /** The stored book for an inserted one: the insert shape plus an id. */
  function WithId(b: InsertBook, id: int): (r: Book)
    ensures r.id == id && WithoutId(r) == b
  {
    Book(id, b.title, b.author, b.description, b.coverImage, b.genres, b.rating,
         b.pages, b.published, b.isbn, b.language)
  }

  /** The insert shape of a book: everything but the id. */
  function WithoutId(b: Book): InsertBook
  {
    InsertBook(b.title, b.author, b.description, b.coverImage, b.genres, b.rating,
               b.pages, b.published, b.isbn, b.language)
  }

  /** The insert shape omits only the id: a book is its id plus its insert shape. */
  lemma BookIsIdPlusInsertShape(b: Book)
    ensures WithId(WithoutId(b), b.id) == b
  {
  }

  /** The review stored for an inserted one, with its id and creation time. */
  function NewReview(r: InsertBookReview, id: int, createdAt: Timestamp): (v: BookReview)
    ensures v.id == id && v.createdAt == createdAt
    ensures InsertBookReview(v.userId, v.bookId, v.rating, v.comment) == r
  {
    BookReview(id, r.userId, r.bookId, r.rating, r.comment, createdAt)
  }

  /** `{...existing, ...patch, id, createdAt: existing.createdAt}`: the present
      fields of the patch overwrite, the id and creation time never change. */
  function ApplyPatch(existing: BookReview, patch: ReviewPatch): (v: BookReview)
    ensures v.id == existing.id && v.createdAt == existing.createdAt
    ensures v.rating == (if patch.rating.Some? then patch.rating.value else existing.rating)
    ensures v.comment == (if patch.comment.Some? then patch.comment.value else existing.comment)
    ensures v.userId == (if patch.userId.Some? then patch.userId.value else existing.userId)
    ensures v.bookId == (if patch.bookId.Some? then patch.bookId.value else existing.bookId)
  {
    existing.(
      userId := patch.userId.GetOr(existing.userId),
      bookId := patch.bookId.GetOr(existing.bookId),
      rating := patch.rating.GetOr(existing.rating),
      comment := patch.comment.GetOr(existing.comment))
  }

  /** `progress.status || "not_started"`: a missing or empty status becomes the default. */
  function StatusOrDefault(status: Option<string>): (s: string)
    ensures s != ""
    ensures status.Some? && status.value != "" ==> s == status.value
    ensures status.None? || status.value == "" ==> s == DefaultStatus
  {
    if status.None? || status.value == "" then DefaultStatus else status.value
  }

  /** `pagesRead !== undefined ? pagesRead : 0`: only a missing count becomes 0. */
  function PagesReadOrDefault(pagesRead: Option<int>): (n: int)
    ensures pagesRead.Some? ==> n == pagesRead.value
    ensures pagesRead.None? ==> n == DefaultPagesRead
  {
    pagesRead.GetOr(DefaultPagesRead)
  }
}
