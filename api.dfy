/** The `/books` endpoints end to end: request-body validation, the service
    call, the controller's response, and the global exception handler for
    whatever was thrown on the way. */
module Api {
  import opened Wrappers
  import opened Validation
  import opened Exceptions
  import opened ExceptionHandler
  import opened Repository
  import opened Service
  import opened Controller

  /** What an endpoint writes as its response body. */
  datatype Body =
    | BookJson(book: BookResponse)
    | BooksJson(books: seq<BookResponse>)
    | Text(text: string)
    | ErrorJson(error: ErrorResponse)

  datatype HttpResponse = HttpResponse(status: int, body: Body)

  /** An exception, as the global exception handler answers it. */
  function ErrorReply(ex: Exception): (r: HttpResponse)
    ensures r.body.ErrorJson? && r.status == r.body.error.status == Handle(ex).status
    ensures r.body.error == Handle(ex)
  {
    var e := Handle(ex);
    HttpResponse(e.status, ErrorJson(e))
  }

  /** A handler's outcome as written to the client. */
  function BookReply(outcome: Result<Reply<BookResponse>, Exception>): (r: HttpResponse)
    ensures outcome.Success? ==> r == HttpResponse(outcome.value.status, BookJson(outcome.value.body))
    ensures outcome.Failure? ==> r == ErrorReply(outcome.error)
  {
    match outcome
    case Success(reply) => HttpResponse(reply.status, BookJson(reply.body))
    case Failure(ex) => ErrorReply(ex)
  }

  /** The reply to a body that fails validation: 400 naming each violated
      field with its message. */
  function RejectedBody(req: BookRequest): HttpResponse {
    HttpResponse(400, ErrorJson(ErrorResponse(JoinFieldErrors(Violations(req)), 400)))
  }

  /** `GET /books`: 200 and every stored book, oldest first. */
  method GetBooks(service: BookService) returns (resp: HttpResponse)
    requires service.Valid()
    ensures resp.status == 200 && resp.body.BooksJson?
    ensures |resp.body.books| == |service.repo.rows|
    ensures forall i :: 0 <= i < |resp.body.books| ==>
      var b := resp.body.books[i];
      b.id in service.repo.rows && b == ToResponse(b.id, service.repo.rows[b.id])
    ensures forall i, j :: 0 <= i < j < |resp.body.books| ==> resp.body.books[i].id < resp.body.books[j].id
  {
    var reply := Controller.GetAllBooks(service.GetAllBooks());
    resp := HttpResponse(reply.status, BooksJson(reply.body));
  }

  /** `GET /books/{id}`: 200 and the stored book, or 404 naming the id. */
  method GetBook(service: BookService, id: int) returns (resp: HttpResponse)
    requires service.Valid()
    ensures resp.status == 200 <==> id in service.repo.rows
    ensures id in service.repo.rows ==>
      resp.body == BookJson(ToResponse(id, service.repo.rows[id]))
    ensures id !in service.repo.rows ==>
      resp == HttpResponse(404, ErrorJson(ErrorResponse(NotFoundMessage(id), 404)))
  {
    var found := service.GetBookById(id);
    resp := BookReply(FoundOrNotFound(id, found));
  }

  /** `POST /books`: an invalid body is answered 400 and nothing is stored or
      announced; a valid one is stored under a fresh id and answered 201. */
  method PostBook(service: BookService, req: BookRequest, brokerUp: bool) returns (resp: HttpResponse)
    requires service.Valid()
    modifies service, service.repo
    ensures service.Valid()
    ensures !IsValid(req) ==>
      && resp == RejectedBody(req)
      && service.repo.rows == old(service.repo.rows)
      && service.repo.nextId == old(service.repo.nextId)
      && service.notifications == old(service.notifications)
    ensures IsValid(req) ==>
      && resp == HttpResponse(201, BookJson(ToResponse(old(service.repo.nextId), RequestData(req))))
      && old(service.repo.nextId) !in old(service.repo.rows)
      && service.repo.rows == old(service.repo.rows)[old(service.repo.nextId) := RequestData(req)]
      && service.notifications == old(service.notifications) +
           (if brokerUp then [NotificationMessage(RequestData(req))] else [])
  {
    var checked := ValidateBody(req);
    if checked.Failure? {
      resp := ErrorReply(checked.error);
      return;
    }
    var saved := service.AddBook(req, brokerUp);
    var reply := Controller.AddBook(saved);
    resp := HttpResponse(reply.status, BookJson(reply.body));
  }

  /** `PUT /books/{id}`: an invalid body is answered 400 whatever the id; an
      unknown id 404; either way nothing changes. Otherwise that one row takes
      the request's fields and the updated book is answered 200. */
  method PutBook(service: BookService, id: int, req: BookRequest) returns (resp: HttpResponse)
    requires service.Valid()
    modifies service.repo
    ensures service.Valid()
    ensures !IsValid(req) ==> resp == RejectedBody(req)
    ensures IsValid(req) && id !in old(service.repo.rows) ==>
      resp == HttpResponse(404, ErrorJson(ErrorResponse(NotFoundMessage(id), 404)))
    ensures !IsValid(req) || id !in old(service.repo.rows) ==>
      service.repo.rows == old(service.repo.rows)
    ensures IsValid(req) && id in old(service.repo.rows) ==>
      && resp == HttpResponse(200, BookJson(ToResponse(id, RequestData(req))))
      && service.repo.rows == old(service.repo.rows)[id := RequestData(req)]
    ensures service.repo.nextId == old(service.repo.nextId)
  {
    var checked := ValidateBody(req);
    if checked.Failure? {
      resp := ErrorReply(checked.error);
      return;
    }
    var updated := service.UpdateBook(id, req);
    resp := BookReply(FoundOrNotFound(id, updated));
  }

  /** `DELETE /books/{id}`: 200 "Book removed" and the row gone, or 404 naming
      the id and nothing changed. */
  method DeleteBook(service: BookService, id: int) returns (resp: HttpResponse)
    requires service.Valid()
    modifies service.repo
    ensures service.Valid()
    ensures service.repo.rows == old(service.repo.rows) - {id}
    ensures id in old(service.repo.rows) ==> resp == HttpResponse(200, Text("Book removed"))
    ensures id !in old(service.repo.rows) ==>
      resp == HttpResponse(404, ErrorJson(ErrorResponse(NotFoundMessage(id), 404)))
  {
    var deleted := service.DeleteBook(id);
    var outcome := Controller.DeleteBook(id, deleted);
    match outcome
    case Success(reply) => resp := HttpResponse(reply.status, Text(reply.body));
    case Failure(ex) => resp := ErrorReply(ex);
  }
}
