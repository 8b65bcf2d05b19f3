/** The global exception handler: each kind of exception becomes an error body
    with a message and an HTTP status. */
module ExceptionHandler {
  import opened Validation
  import opened Exceptions

  /** `ErrorResponseDTO`. */
  datatype ErrorResponse = ErrorResponse(message: string, status: int)

  /** `field + " : " + defaultMessage` for one field error. */
  function FieldErrorText(e: FieldError): string {
    e.field + " : " + e.message
  }

  /** The field errors' texts joined with no separator (`Collectors.joining()`):
      every error contributes at least its `" : "`, so the message is empty
      exactly when there is no error. */
  function JoinFieldErrors(errs: seq<FieldError>): (r: string)
    ensures |r| >= 3 * |errs|
    ensures r == [] <==> errs == []
  {
    if errs == [] then "" else FieldErrorText(errs[0]) + JoinFieldErrors(errs[1..])
  }

  /** Joining distributes over concatenation: the message lists the field
      errors in their order, each exactly once. */
  lemma {:induction false} JoinAppend(a: seq<FieldError>, b: seq<FieldError>)
    ensures JoinFieldErrors(a + b) == JoinFieldErrors(a) + JoinFieldErrors(b)
  {
    if a != [] {
      assert (a + b)[1..] == a[1..] + b;
      JoinAppend(a[1..], b);
    } else {
      assert a + b == b;
    }
  }

  /** The text of the k-th field error stands, whole, at its place in the
      joined message. */
  lemma JoinAt(errs: seq<FieldError>, k: nat)
    requires k < |errs|
    ensures JoinFieldErrors(errs) ==
      JoinFieldErrors(errs[..k]) + FieldErrorText(errs[k]) + JoinFieldErrors(errs[k + 1..])
  {
    SplitAt(errs, k);
    JoinAround(errs[..k], errs[k], errs[k + 1..]);
  }

  lemma SplitAt(errs: seq<FieldError>, k: nat)
    requires k < |errs|
    ensures errs == errs[..k] + [errs[k]] + errs[k + 1..]
  {
  }

  lemma JoinAround(front: seq<FieldError>, e: FieldError, back: seq<FieldError>)
    ensures JoinFieldErrors(front + [e] + back) ==
      JoinFieldErrors(front) + FieldErrorText(e) + JoinFieldErrors(back)
  {
    JoinAppend(front + [e], back);
    JoinAppend(front, [e]);
    JoinSingle(e);
  }

  lemma JoinSingle(e: FieldError)
    ensures JoinFieldErrors([e]) == FieldErrorText(e)
  {
    assert [e][1..] == [];
  }

  /** The four `@ExceptionHandler` methods. Spring picks the most specific one,
      so every exception other than the three named kinds goes to the generic
      handler. */
  function Handle(ex: Exception): (r: ErrorResponse)
    ensures r.status == 404 <==> ex.NoSuchElement?
    ensures r.status == 400 <==> ex.ArgumentNotValid? || ex.ArgumentTypeMismatch?
    ensures r.status == 500 <==> !(ex.NoSuchElement? || ex.ArgumentNotValid? || ex.ArgumentTypeMismatch?)
    ensures ex.NoSuchElement? ==> r.message == ex.message
    ensures ex.ArgumentNotValid? ==> r.message == JoinFieldErrors(ex.fieldErrors)
    ensures ex.ArgumentTypeMismatch? ==> r.message == "Invalid input format"
    ensures r.status == 500 ==> r.message == "Internal Server Error"
  {
    match ex
    case NoSuchElement(message) => ErrorResponse(message, 404)
    case ArgumentNotValid(errs) => ErrorResponse(JoinFieldErrors(errs), 400)
    case ArgumentTypeMismatch => ErrorResponse("Invalid input format", 400)
    case _ => ErrorResponse("Internal Server Error", 500)
  }

  /** A rejected request body gets a 400 whose message names each violated
      field with its message; a request with no title and nothing else wrong
      reads "title : Title required". */
  lemma RejectedRequestMessage(req: BookRequest)
    requires req.title.None? && req.author.Some? && SizeOk(req.author.value) && req.publishedDate.Some?
    ensures Handle(ArgumentNotValid(Violations(req))) == ErrorResponse("title : Title required", 400)
  {
    var e := FieldError("title", TitleRequired);
    assert TextFieldErrors("title", req.title, TitleRequired, TitleSize) == [e];
    assert TextFieldErrors("author", req.author, AuthorRequired, AuthorSize) == [];
    assert Violations(req) == [e] + [] + [];
    JoinSingle(e);
  }
}
