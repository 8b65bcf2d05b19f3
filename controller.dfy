/** The REST controller under `/books`: each handler turns what the service
    returned into a response entity, or throws the not-found exception that the
    global exception handler turns into an error body. */
module Controller {
  import opened Wrappers
  import opened Decimal
  import opened Validation
  import opened Exceptions
  import opened ExceptionHandler
  import opened Service

  /** `ResponseEntity<T>`: a status code and a body. */
  datatype Reply<T> = Reply(status: int, body: T)

  /** "Book with ID <id> not found", the id written as Java writes an `int`. */
  function NotFoundMessage(id: int): (r: string)
    ensures |r| == 23 + |Show(id)|
    ensures r[..13] == "Book with ID "
    ensures r[13..|r| - 10] == Show(id)
    ensures r[|r| - 10..] == " not found"
  {
    "Book with ID " + Show(id) + " not found"
  }

  /** The not-found message names the id it was built from: two ids give the
      same message only when they are equal. */
  lemma NotFoundMessageNamesId(m: int, n: int)
    requires NotFoundMessage(m) == NotFoundMessage(n)
    ensures m == n
  {
    var msg := NotFoundMessage(m);
    assert msg[13..|msg| - 10] == Show(m);
    assert NotFoundMessage(n)[13..|msg| - 10] == Show(n);
    ShowInjective(m, n);
  }

  /** `@Valid` on a request body: a body that breaks a constraint never reaches
      the handler; the violations travel in the exception. */
  function ValidateBody(req: BookRequest): (r: Result<BookRequest, Exception>)
    ensures r.Success? <==> IsValid(req)
    ensures r.Success? ==> r.value == req
    ensures r.Failure? ==> r.error.ArgumentNotValid? && r.error.fieldErrors != []
    ensures r.Failure? ==> r.error.fieldErrors == Violations(req)
  {
    var errs := Violations(req);
    if errs == [] then Success(req) else Failure(ArgumentNotValid(errs))
  }

  /** `getAllBooks`: the service's list, returned as the body of a 200. */
  function GetAllBooks(books: seq<BookResponse>): (r: Reply<seq<BookResponse>>)
    ensures r.status == 200 && r.body == books
  {
    Reply(200, books)
  }

  /** `getBookById` and `updateBook`, which map the service's `Optional` the
      same way: a present book is the body of a 200; an absent one is a
      not-found naming the id, which the exception handler answers 404. */
  function FoundOrNotFound(id: int, found: Option<BookResponse>): (r: Result<Reply<BookResponse>, Exception>)
    ensures r.Success? <==> found.Some?
    ensures found.Some? ==> r.value == Reply(200, found.value)
    ensures found.None? ==> r.error == NoSuchElement(NotFoundMessage(id))
    ensures found.None? ==> Handle(r.error) == ErrorResponse(NotFoundMessage(id), 404)
  {
    match found
    case Some(b) => Success(Reply(200, b))
    case None => Failure(NoSuchElement(NotFoundMessage(id)))
  }

  /** `addBook`, given the book the service saved: 201 with that book. */
  function AddBook(saved: BookResponse): (r: Reply<BookResponse>)
    ensures r.status == 201 && r.body == saved
  {
    Reply(201, saved)
  }

  /** `deleteBook`, given whether the service deleted a row: 200 "Book
      removed", or a not-found naming the id. */
  function DeleteBook(id: int, deleted: bool): (r: Result<Reply<string>, Exception>)
    ensures r.Success? <==> deleted
    ensures deleted ==> r.value == Reply(200, "Book removed")
    ensures !deleted ==> Handle(r.error) == ErrorResponse(NotFoundMessage(id), 404)
  {
    if deleted then Success(Reply(200, "Book removed"))
    else Failure(NoSuchElement(NotFoundMessage(id)))
  }
}
