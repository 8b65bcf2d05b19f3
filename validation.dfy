/** The request body of the add and update endpoints and the bean-validation
    constraints declared on its fields. */
module Validation {
  import opened Wrappers
  import opened Dates

  /** A `BookRequestDTO`; a `None` field is a Java `null`. */
  datatype BookRequest = BookRequest(title: Option<string>, author: Option<string>, publishedDate: Option<LocalDate>)

  /** One violated constraint: the field's name and the constraint's message. */
  datatype FieldError = FieldError(field: string, message: string)

  const TitleRequired := "Title required"
  const TitleSize := "Title must be between 1 to 100 characters"
  const AuthorRequired := "Author is required"
  const AuthorSize := "Author must be between 1 to 100 characters"
  const DateRequired := "Published date is required"

  /** `@Size(min=1, max=100)`. */
  predicate SizeOk(s: string) {
    1 <= |s| <= 100
  }

  /** What a valid request is: a title and an author of 1 to 100 characters
      and some published date. No constraint is placed on the date itself. */
  predicate IsValid(req: BookRequest) {
    && req.title.Some? && SizeOk(req.title.value)
    && req.author.Some? && SizeOk(req.author.value)
    && req.publishedDate.Some?
  }

  /** `@NotNull(message = required)` and `@Size(min=1, max=100, message = size)`
      on one string field. `@Size` holds of `null`, so a missing value violates
      only `@NotNull`. */
  function TextFieldErrors(field: string, value: Option<string>, required: string, size: string): (errs: seq<FieldError>)
    ensures |errs| <= 1
    ensures forall e :: e in errs ==> e.field == field
  {
    match value
    case None => [FieldError(field, required)]
    case Some(s) => if SizeOk(s) then [] else [FieldError(field, size)]
  }

  /** The field errors of a request, in the order its fields are declared. */
  function Violations(req: BookRequest): (errs: seq<FieldError>)
    ensures errs == [] <==> IsValid(req)
    ensures |errs| <= 3
  {
    TextFieldErrors("title", req.title, TitleRequired, TitleSize)
    + TextFieldErrors("author", req.author, AuthorRequired, AuthorSize)
    + (if req.publishedDate.None? then [FieldError("publishedDate", DateRequired)] else [])
  }

  /** The errors reported for one field, and their messages. */
  function ErrorsFor(errs: seq<FieldError>, field: string): seq<string>
  {
    if errs == [] then []
    else (if errs[0].field == field then [errs[0].message] else []) + ErrorsFor(errs[1..], field)
  }

  lemma {:induction false} ErrorsForAppend(a: seq<FieldError>, b: seq<FieldError>, field: string)
    ensures ErrorsFor(a + b, field) == ErrorsFor(a, field) + ErrorsFor(b, field)
  {
    if a != [] {
      assert (a + b)[1..] == a[1..] + b;
      ErrorsForAppend(a[1..], b, field);
    } else {
      assert a + b == b;
    }
  }

  /** The messages a list of errors holds for a field, when the list is the
      title's, the author's and the date's errors in turn. */
  lemma ErrorsForParts(t: seq<FieldError>, a: seq<FieldError>, d: seq<FieldError>, field: string)
    ensures ErrorsFor(t + a + d, field) == ErrorsFor(t, field) + ErrorsFor(a, field) + ErrorsFor(d, field)
  {
    ErrorsForAppend(t + a, d, field);
    ErrorsForAppend(t, a, field);
  }

  /** The messages one field's own errors give for a field: its own messages
      when the names agree, none otherwise. */
  lemma ErrorsForTextField(field: string, value: Option<string>, required: string, size: string, asked: string)
    ensures var errs := TextFieldErrors(field, value, required, size);
      ErrorsFor(errs, asked) == if field == asked then (if errs == [] then [] else [errs[0].message]) else []
  {
    var errs := TextFieldErrors(field, value, required, size);
    if errs != [] {
      assert errs[1..] == [];
    }
  }

  /** Each field is judged on its own value: its messages are those of its own
      constraints, whatever the other fields hold. */
  lemma FieldMessages(req: BookRequest)
    ensures ErrorsFor(Violations(req), "title") ==
      match req.title
      case None => [TitleRequired]
      case Some(t) => if SizeOk(t) then [] else [TitleSize]
    ensures ErrorsFor(Violations(req), "author") ==
      match req.author
      case None => [AuthorRequired]
      case Some(a) => if SizeOk(a) then [] else [AuthorSize]
    ensures ErrorsFor(Violations(req), "publishedDate") ==
      if req.publishedDate.None? then [DateRequired] else []
  {
    var t := TextFieldErrors("title", req.title, TitleRequired, TitleSize);
    var a := TextFieldErrors("author", req.author, AuthorRequired, AuthorSize);
    var d := if req.publishedDate.None? then [FieldError("publishedDate", DateRequired)] else [];
    assert Violations(req) == t + a + d;
    ErrorsForParts(t, a, d, "title");
    ErrorsForParts(t, a, d, "author");
    ErrorsForParts(t, a, d, "publishedDate");
    ErrorsForTextField("title", req.title, TitleRequired, TitleSize, "title");
    ErrorsForTextField("title", req.title, TitleRequired, TitleSize, "author");
    ErrorsForTextField("title", req.title, TitleRequired, TitleSize, "publishedDate");
    ErrorsForTextField("author", req.author, AuthorRequired, AuthorSize, "title");
    ErrorsForTextField("author", req.author, AuthorRequired, AuthorSize, "author");
    ErrorsForTextField("author", req.author, AuthorRequired, AuthorSize, "publishedDate");
  }

  /** Validity does not depend on which date is given. */
  lemma AnyDateIsAccepted(req: BookRequest, d: LocalDate)
    requires req.publishedDate.Some?
    ensures Violations(req) == Violations(req.(publishedDate := Some(d)))
  {
  }
}
