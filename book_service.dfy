/** The book service: create, read, update and delete over the book table, the
    import of a book from the Google Books API, and the best-effort
    notification sent when a book is added. */
module Service {
  import opened Wrappers
  import opened Dates
  import opened Models
  import opened Validation
  import opened Exceptions
  import opened Repository
  import opened GoogleBooks

  /** `BookResponseDTO`. */
  datatype BookResponse = BookResponse(id: int, title: Option<string>, author: Option<string>, publishedDate: Option<LocalDate>)

  /** The response for the row stored under `id`. */
  function ToResponse(id: int, d: BookData): BookResponse {
    BookResponse(id, d.title, d.author, d.publishedDate)
  }

  /** The columns a request body sets. */
  function RequestData(req: BookRequest): BookData {
    BookData(req.title, req.author, req.publishedDate)
  }

  /** A possibly-null `String` as Java's string concatenation renders it. */
  function NullableText(s: Option<string>): string {
    match s
    case None => "null"
    case Some(t) => t
  }

  /** "New Book Added: <title> by <author>", a missing field written "null". */
  function NotificationMessage(d: BookData): (r: string)
    ensures |r| == 20 + |NullableText(d.title)| + |NullableText(d.author)|
    ensures r[..16] == "New Book Added: "
    ensures r[16..16 + |NullableText(d.title)|] == NullableText(d.title)
    ensures r[|r| - |NullableText(d.author)| - 4..|r| - |NullableText(d.author)|] == " by "
    ensures r[|r| - |NullableText(d.author)|..] == NullableText(d.author)
  {
    "New Book Added: " + NullableText(d.title) + " by " + NullableText(d.author)
  }

  class BookService {
    /** The injected repository. */
    const repo: BookRepository
    /** The notifications the message broker accepted, oldest first. */
    var notifications: seq<string>

    ghost predicate Valid()
      reads this, repo
    {
      repo.Valid()
    }

    constructor (repo: BookRepository)
      requires repo.Valid()
      ensures Valid() && this.repo == repo && notifications == []
    {
      this.repo := repo;
      notifications := [];
    }

    /** `getAllBooks`: one response per stored book, in the order the books
        were saved. */
    function GetAllBooks(): (books: seq<BookResponse>)
      reads this, repo
      requires Valid()
      ensures |books| == |repo.rows|
      ensures forall i :: 0 <= i < |books| ==>
        books[i].id in repo.rows && books[i] == ToResponse(books[i].id, repo.rows[books[i].id])
      ensures forall i, j :: 0 <= i < j < |books| ==> books[i].id < books[j].id
    {
      ListingShape(repo.rows, repo.nextId);
      Listing(repo.rows, repo.nextId)
    }

    /** `getBookById`: the stored book, or empty when there is none. */
    function GetBookById(id: int): (r: Option<BookResponse>)
      reads this, repo
      ensures r.Some? <==> id in repo.rows
      ensures r.Some? ==> r.value == ToResponse(id, repo.rows[id])
    {
      if id in repo.rows then Some(ToResponse(id, repo.rows[id])) else None
    }

    /** `notificationProducer.sendNotification` inside its try/catch: a
        delivered message is recorded; a failure is logged and otherwise
        ignored. Whether the broker is up is a parameter. */
    method SendNotification(message: string, brokerUp: bool)
      modifies this
      ensures notifications == old(notifications) + (if brokerUp then [message] else [])
    {
      if brokerUp {
        notifications := notifications + [message];
      }
    }

    /** `addBook`: saves a new book holding the request's fields under a fresh
        id, announces it, and returns it. A failed notification does not fail
        the add: the store and the result are the same either way. */
    method AddBook(req: BookRequest, brokerUp: bool) returns (r: BookResponse)
      requires Valid()
      modifies this, repo
      ensures Valid()
      ensures r.id !in old(repo.rows) && r.id == old(repo.nextId)
      ensures r == ToResponse(r.id, RequestData(req))
      ensures repo.rows == old(repo.rows)[r.id := RequestData(req)]
      ensures GetBookById(r.id) == Some(r)
      ensures repo.nextId == old(repo.nextId) + 1
      ensures notifications == old(notifications) + (if brokerUp then [NotificationMessage(RequestData(req))] else [])
    {
      var newBook := new Book();
      newBook.SetTitle(req.title);
      newBook.SetAuthor(req.author);
      newBook.SetPublishedDate(req.publishedDate);
      var savedBook := repo.Save(newBook);
      var message := "New Book Added: " + NullableText(savedBook.title) + " by " + NullableText(savedBook.author);
      SendNotification(message, brokerUp);
      r := BookResponse(savedBook.id, savedBook.title, savedBook.author, savedBook.publishedDate);
    }

    /** `updateBook`: a stored book gets the request's title, author and date
        and keeps its id; no other row changes. An unknown id changes nothing
        and creates no row. */
    method UpdateBook(id: int, req: BookRequest) returns (r: Option<BookResponse>)
      requires Valid()
      modifies repo
      ensures Valid()
      ensures r.Some? <==> id in old(repo.rows)
      ensures id !in old(repo.rows) ==> repo.rows == old(repo.rows)
      ensures id in old(repo.rows) ==>
        && r.value == ToResponse(id, RequestData(req))
        && repo.rows == old(repo.rows)[id := RequestData(req)]
      ensures repo.nextId == old(repo.nextId)
      ensures r.Some? ==> GetBookById(id) == r
    {
      var found := repo.FindById(id);
      match found
      case None =>
        r := None;
      case Some(book) =>
        book.SetTitle(req.title);
        book.SetAuthor(req.author);
        book.SetPublishedDate(req.publishedDate);
        var _ := repo.Save(book);
        r := Some(BookResponse(book.id, book.title, book.author, book.publishedDate));
    }

    /** `deleteBook`: false and nothing removed when the id is unknown;
        otherwise true and exactly that row removed. */
    method DeleteBook(id: int) returns (deleted: bool)
      requires Valid()
      modifies repo
      ensures Valid()
      ensures deleted <==> id in old(repo.rows)
      ensures repo.rows == old(repo.rows) - {id} && repo.nextId == old(repo.nextId)
      ensures GetBookById(id) == None
    {
      if !repo.ExistsById(id) {
        return false;
      }
      repo.DeleteById(id);
      deleted := true;
    }

    /** `addViaApi` after its HTTP call: cleans the id, builds the book from
        the fetched volume, announces it and saves it. When building fails
        (not found, or an exception) nothing is announced or saved. */
    method AddViaApi(requestId: Option<string>, fetched: Fetch<VolumeBody>, brokerUp: bool) returns (r: Result<Book, Exception>)
      requires Valid()
      modifies this, repo
      ensures Valid()
      ensures var built := ImportedBook(requestId, fetched);
        && (built.Failure? ==>
              && r == Failure(built.error)
              && repo.rows == old(repo.rows) && repo.nextId == old(repo.nextId)
              && notifications == old(notifications))
        && (built.Success? ==>
              && r.Success? && fresh(r.value)
              && r.value.id == old(repo.nextId) && r.value.id !in old(repo.rows)
              && r.value.Data() == built.value
              && repo.rows == old(repo.rows)[r.value.id := built.value]
              && repo.nextId == old(repo.nextId) + 1
              && notifications == old(notifications) + (if brokerUp then [NotificationMessage(built.value)] else []))
    {
      if requestId.None? {
        return Failure(NullPointer);
      }
      var cleanId := CleanId(requestId.value);
      var built := VolumeBook(fetched, cleanId);
      if built.Failure? {
        return Failure(built.error);
      }
      var data := built.value;
      var book := new Book.Of(data.title, data.author, data.publishedDate);
      var message := "New Book Added: " + NullableText(book.title) + " by " + NullableText(book.author);
      SendNotification(message, brokerUp);
      var saved := repo.Save(book);
      r := Success(saved);
    }

    /** `addViaApi` behind its circuit breaker and retry: when the call fails,
        the caller gets the unsaved placeholder book and the store is as it
        was. */
    method AddViaApiOrFallback(requestId: Option<string>, fetched: Fetch<VolumeBody>, brokerUp: bool) returns (book: Book)
      requires Valid()
      modifies this, repo
      ensures Valid()
      ensures var built := ImportedBook(requestId, fetched);
        && (built.Failure? ==>
              && book.id == 0 && book.Data() == BookData(Some(Unavailable), Some("no author"), None)
              && repo.rows == old(repo.rows) && repo.nextId == old(repo.nextId)
              && notifications == old(notifications))
        && (built.Success? ==>
              && book.id == old(repo.nextId) && book.Data() == built.value
              && repo.rows == old(repo.rows)[book.id := built.value]
              && repo.nextId == old(repo.nextId) + 1
              && notifications == old(notifications) + (if brokerUp then [NotificationMessage(built.value)] else []))
    {
      var r := AddViaApi(requestId, fetched, brokerUp);
      if r.Success? {
        book := r.value;
      } else {
        book := AddViaApiFallback();
      }
    }
  }

  /** The responses for the rows under `ids`, in that order. */
  function Responses(rows: map<int, BookData>, ids: seq<int>): (books: seq<BookResponse>)
    requires forall i :: 0 <= i < |ids| ==> ids[i] in rows
    ensures |books| == |ids|
    ensures forall i :: 0 <= i < |ids| ==> books[i] == ToResponse(ids[i], rows[ids[i]])
  {
    if ids == [] then []
    else Responses(rows, ids[..|ids| - 1]) + [ToResponse(ids[|ids| - 1], rows[ids[|ids| - 1]])]
  }

  /** The responses for the stored rows, in ascending id order. */
  function Listing(rows: map<int, BookData>, nextId: int): seq<BookResponse>
    requires IdsIssued(rows, nextId)
  {
    Responses(rows, IdsBelow(rows.Keys, nextId))
  }

  /** The listing holds each stored book exactly once, in ascending id order. */
  lemma ListingShape(rows: map<int, BookData>, nextId: int)
    requires IdsIssued(rows, nextId)
    ensures var books := Listing(rows, nextId);
      && |books| == |rows|
      && (forall i :: 0 <= i < |books| ==>
            books[i].id in rows && books[i] == ToResponse(books[i].id, rows[books[i].id]))
      && (forall i, j :: 0 <= i < j < |books| ==> books[i].id < books[j].id)
  {
    var ids := IdsBelow(rows.Keys, nextId);
    IdsBelowCountAll(rows.Keys, nextId);
    var books := Responses(rows, ids);
    assert forall i :: 0 <= i < |books| ==> books[i].id == ids[i];
  }

  /** Every stored book is listed. */
  lemma ListingHasEveryBook(rows: map<int, BookData>, nextId: int, id: int)
    requires IdsIssued(rows, nextId)
    requires id in rows
    ensures ToResponse(id, rows[id]) in Listing(rows, nextId)
  {
    var ids := IdsBelow(rows.Keys, nextId);
    var i :| 0 <= i < |ids| && ids[i] == id;
    assert Listing(rows, nextId)[i] == ToResponse(id, rows[id]);
  }

  /** Writing a row whose id is not listed leaves the listed responses as
      they were. */
  lemma ResponsesIgnoreUnlistedRow(rows: map<int, BookData>, ids: seq<int>, k: int, d: BookData)
    requires forall i :: 0 <= i < |ids| ==> ids[i] in rows && ids[i] != k
    ensures Responses(rows[k := d], ids) == Responses(rows, ids)
  {
    var a, b := Responses(rows[k := d], ids), Responses(rows, ids);
    assert |a| == |b|;
    forall i | 0 <= i < |a|
      ensures a[i] == b[i]
    {
    }
  }

  /** Adding a row under the next id appends its response to the listing and
      leaves the earlier responses as they were. */
  lemma AddedBookIsListedLast(rows: map<int, BookData>, nextId: int, d: BookData)
    requires IdsIssued(rows, nextId)
    ensures Listing(rows[nextId := d], nextId + 1) == Listing(rows, nextId) + [ToResponse(nextId, d)]
  {
    var rows' := rows[nextId := d];
    var ids := IdsBelow(rows.Keys, nextId);
    assert rows'.Keys == rows.Keys + {nextId};
    IdsBelowNewKey(rows.Keys, nextId);
    var ids' := ids + [nextId];
    assert IdsBelow(rows'.Keys, nextId + 1) == ids';
    assert ids'[..|ids|] == ids;
    assert Responses(rows', ids') == Responses(rows', ids) + [ToResponse(nextId, d)];
    ResponsesIgnoreUnlistedRow(rows, ids, nextId, d);
  }
}
