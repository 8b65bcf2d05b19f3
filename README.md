# Book catalogue service — a Dafny model

This project models the core of a Spring Boot book-catalogue service. The
service keeps a table of books, each with a title, an author and a published
date. Through its REST endpoints under `/books` you can list, read, add,
update and delete books. Request bodies are checked against bean-validation
constraints. The service can also look books up in the Google Books API and
import a volume by its id. Adding a book announces it on a message broker, on
a best-effort basis. A global exception handler turns every exception into an
error body with a message and an HTTP status.

The modules follow the program's layers:

| file | module | what it holds |
|---|---|---|
| `wrappers.dfy` | `Wrappers` | `Option` (Java `null` / `Optional`) and `Result` (a value or a thrown exception) |
| `decimal.dfy` | `Decimal` | digit strings: java.time's number reading and Java's `int` rendering |
| `dates.dfy` | `Dates` | `LocalDate.parse` with the pattern `yyyy[-MM[-dd]]`, month and day defaulting to 1 |
| `book.dfy` | `Models` | the `Book` entity as a class whose setters update its fields in place |
| `validation.dfy` | `Validation` | `BookRequestDTO` and its `@NotNull` / `@Size` constraints |
| `exceptions.dfy` | `Exceptions` | the exceptions that reach the exception handler |
| `exception_handler.dfy` | `ExceptionHandler` | `GloabalExceptionHandler`: exception to (message, status) |
| `repository.dfy` | `Repository` | the book table and its id counter, as a class |
| `google_books.dfy` | `GoogleBooks` | the JSON the service reads from Google Books, search mapping, id cleaning, the imported book, the fallbacks |
| `book_service.dfy` | `Service` | `BookService` as a class over the repository, with the notifications it sent |
| `controller.dfy` | `Controller` | `BookController`: service outcome to response entity or not-found |
| `api.dfy` | `Api` | the endpoints end to end: validation, service, controller and exception handler |

Java `null` is `None`. A thrown exception is a `Failure` carrying the
`Exception` value that the handler later maps.

The HTTP calls to Google Books are not modelled. Their outcome is an input of
type `Fetch<T>`: either the call threw (`Unreachable`) or it returned a body,
which may be null. Whether the message broker accepts a notification is the
input `brokerUp`.

The repository issues ids from a counter that starts at 1, as the database
identity column does. `findAll` (called at
`src/main/java/spring_tasks/spring_project/service/BookService.java:54`) runs
without an `ORDER BY`, so the program does not fix the order of the listing.
The model lists books in ascending id order, which is also the order in which
they were saved.

`BookRequestDTO` puts only `@NotNull` on the published date. There is no
future-date check, and `Validation.AnyDateIsAccepted` states that the date's
value never affects validation.

## Model

| member | source | states |
|---|---|---|
| Decimal.ShowInjective | src/main/java/spring_tasks/spring_project/controller/BookController.java:37 | Java's decimal rendering of an `int` is injective, so the id written into a message can be read back |
| Dates.Resolve | src/main/java/spring_tasks/spring_project/service/BookService.java:137-142 | the resolver accepts the fields exactly when the year-of-era is at least 1, the month is 1..12 and the day is 1..31, and the date then holds those fields |
| Dates.ParsePublishedDate | src/main/java/spring_tasks/spring_project/service/BookService.java:137-142 | every date the parser accepts is in range |
| Dates.ParseYearOnly | src/main/java/spring_tasks/spring_project/service/BookService.java:137-142 | a bare four-digit year parses to the first of January of that year |
| Dates.ParseYearMonth | src/main/java/spring_tasks/spring_project/service/BookService.java:137-142 | `yyyy-MM` parses to the first day of that month |
| Dates.ParseIsoText | src/main/java/spring_tasks/spring_project/service/BookService.java:137-142 | round trip: a full `yyyy-MM-dd` text of a date in range parses back to that date |
| Dates.ParsedTextShape | src/main/java/spring_tasks/spring_project/service/BookService.java:137-142 | converse: a text that parses is exactly the year, year-month or full-date text of the result, with the defaulted fields equal to 1 |
| Models.Book.constructor | src/main/java/spring_tasks/spring_project/Models/Book.java:16 | a new book has id 0 and null title, author and date |
| Models.Book.Of | src/main/java/spring_tasks/spring_project/Models/Book.java:18-22 | the three-argument constructor sets title, author and date and leaves the id at 0 |
| Models.Book.SetId | src/main/java/spring_tasks/spring_project/Models/Book.java:27-29 | sets the id and leaves the other fields as they were |
| Models.Book.SetTitle | src/main/java/spring_tasks/spring_project/Models/Book.java:34-36 | sets the title and leaves the other fields as they were |
| Models.Book.SetAuthor | src/main/java/spring_tasks/spring_project/Models/Book.java:41-43 | sets the author and leaves the other fields as they were |
| Models.Book.SetPublishedDate | src/main/java/spring_tasks/spring_project/Models/Book.java:49-51 | sets the date and leaves the other fields as they were |
| Validation.TextFieldErrors | src/main/java/spring_tasks/spring_project/DTO/BookRequestDTO.java:9-15 | one string field yields at most one error, and it is tagged with that field |
| Validation.Violations | src/main/java/spring_tasks/spring_project/DTO/BookRequestDTO.java:9-18 | a request has no field errors exactly when title and author are present with 1 to 100 characters and a date is present; there are at most three errors |
| Validation.FieldMessages | src/main/java/spring_tasks/spring_project/DTO/BookRequestDTO.java:9-18 | each field's messages are exactly those of its own violated constraint (`@NotNull` for a missing value, `@Size` otherwise), whatever the other fields hold |
| Validation.AnyDateIsAccepted | src/main/java/spring_tasks/spring_project/DTO/BookRequestDTO.java:17-18 | only the presence of the date is checked; its value never changes the errors |
| ExceptionHandler.Handle | src/main/java/spring_tasks/spring_project/exceptionHandler/GloabalExceptionHandler.java:18-38 | status 404 exactly for not-found, carrying the exception's message; 400 exactly for validation failures (the joined field errors) and type mismatches ("Invalid input format"); 500 "Internal Server Error" for everything else |
| ExceptionHandler.JoinAppend | src/main/java/spring_tasks/spring_project/exceptionHandler/GloabalExceptionHandler.java:25 | joining with no separator distributes over concatenation of the error list |
| ExceptionHandler.JoinAt | src/main/java/spring_tasks/spring_project/exceptionHandler/GloabalExceptionHandler.java:25 | each field error's `field : message` text stands whole, in order, at its place in the joined message |
| ExceptionHandler.JoinAround | src/main/java/spring_tasks/spring_project/exceptionHandler/GloabalExceptionHandler.java:25 | the message for errors before, one error, and errors after is the three joined texts in that order |
| ExceptionHandler.RejectedRequestMessage | src/main/java/spring_tasks/spring_project/exceptionHandler/GloabalExceptionHandler.java:23-28 | a body missing only its title is answered 400 "title : Title required" |
| Repository.IdsBelow | src/test/java/spring_tasks/spring_project/repository/BookRepositoryTest.java:49-62 | the listed ids are stored keys in range, strictly ascending, and every stored key in range is listed |
| Repository.IdsBelowCount | src/test/java/spring_tasks/spring_project/repository/BookRepositoryTest.java:49-62 | the listing has as many entries as there are keys in range, so no key is listed twice |
| Repository.IdsBelowNewKey | src/test/java/spring_tasks/spring_project/repository/BookRepositoryTest.java:49-62 | issuing the next id appends it at the end of the listing |
| Repository.BookRepository.FindAllIds | src/test/java/spring_tasks/spring_project/repository/BookRepositoryTest.java:49-62 | `findAll` lists every stored id exactly once, in the order the ids were issued |
| Repository.BookRepository.ExistsById | src/test/java/spring_tasks/spring_project/repository/BookRepositoryTest.java:65-75 | `existsById` holds exactly for a stored id |
| Repository.BookRepository.DeleteById | src/test/java/spring_tasks/spring_project/repository/BookRepositoryTest.java:65-75 | exactly that row is removed and the counter is kept |
| Repository.BookRepository.Save | src/test/java/spring_tasks/spring_project/repository/BookRepositoryTest.java:77-96 | a book with a stored id overwrites that row; any other book is inserted under the next id, which is written back into it; no other row changes |
| Repository.BookRepository.FindById | src/test/java/spring_tasks/spring_project/repository/BookRepositoryTest.java:88-95 | a stored id gives a new entity holding the row; an unknown id gives none |
| Service.BookService.GetAllBooks | src/main/java/spring_tasks/spring_project/service/BookService.java:52-55 | one response per stored book, each carrying that book's stored fields, in ascending id order |
| Service.ListingShape | src/main/java/spring_tasks/spring_project/service/BookService.java:52-55 | the listing has one entry per row, each equal to the row's response, with strictly ascending ids |
| Service.ListingHasEveryBook | src/main/java/spring_tasks/spring_project/service/BookService.java:52-55 | every stored book appears in the listing |
| Service.BookService.GetBookById | src/main/java/spring_tasks/spring_project/service/BookService.java:58-61 | present exactly for a stored id, and then the stored fields |
| Service.BookService.SendNotification | src/main/java/spring_tasks/spring_project/service/BookService.java:73-77 | a delivered message is appended to the broker's log; a failed send changes nothing and is not an error |
| Service.BookService.AddBook | src/main/java/spring_tasks/spring_project/service/BookService.java:64-80 | the request's fields are stored under a fresh id; reading that id back gives the returned book; the notification is sent when the broker is up; the result does not depend on the broker |
| Service.AddedBookIsListedLast | src/main/java/spring_tasks/spring_project/service/BookService.java:64-80 | after an add, the listing is the previous listing followed by the new book |
| Service.BookService.UpdateBook | src/main/java/spring_tasks/spring_project/service/BookService.java:83-97 | a stored id gets the request's fields and keeps its id; no other row changes; an unknown id changes nothing and gives none |
| Service.BookService.DeleteBook | src/main/java/spring_tasks/spring_project/service/BookService.java:100-107 | true exactly when the id was stored; exactly that row is gone afterwards |
| Service.BookService.AddViaApi | src/main/java/spring_tasks/spring_project/service/BookService.java:169-220 | a null id throws a null-pointer exception; a volume that yields a book is announced when the broker is up and saved under a fresh id; any failure leaves the store, the id counter and the broker log untouched |
| Service.BookService.AddViaApiOrFallback | src/main/java/spring_tasks/spring_project/service/BookService.java:167-231 | any failure of the import, a null id included, yields the unsaved placeholder book and changes nothing stored or announced; a success is saved under a fresh id and announced when the broker is up |
| GoogleBooks.ReadDate | src/main/java/spring_tasks/spring_project/service/BookService.java:198 | an absent date field throws a null-pointer exception; otherwise the outcome is that of the date parser |
| GoogleBooks.MapItem | src/main/java/spring_tasks/spring_project/service/BookService.java:126-151 | an item maps exactly when it has `volumeInfo`, an id, a title and a parsable date; the result copies id and title, the authors or `["Unknown"]`, and the date |
| GoogleBooks.MapItems | src/main/java/spring_tasks/spring_project/service/BookService.java:125-153 | the list maps exactly when every item maps, giving one result per item in item order |
| GoogleBooks.MapItemsFailureSticks | src/main/java/spring_tasks/spring_project/service/BookService.java:126-151 | once a prefix fails, the whole list fails with the same error |
| GoogleBooks.MapItemsFirstFailure | src/main/java/spring_tasks/spring_project/service/BookService.java:126-151 | a failed list carries the error of its first failing item |
| GoogleBooks.SearchBooks | src/main/java/spring_tasks/spring_project/service/BookService.java:111-154 | the loop builds exactly the specified result: empty for no body or no or empty `items`, otherwise the mapped items or the first item's error |
| GoogleBooks.SearchBooksOrFallback | src/main/java/spring_tasks/spring_project/service/BookService.java:109-165 | a successful search is returned as is; any failure yields the single placeholder result |
| GoogleBooks.SearchOutcomes | src/main/java/spring_tasks/spring_project/service/BookService.java:121-153 | a search over items fails exactly when some item fails, and otherwise gives one result per item carrying that item's id |
| GoogleBooks.TrailingQuote | src/main/java/spring_tasks/spring_project/service/BookService.java:174 | finds where `"$` matches: a quote at the end, or before a final line terminator |
| GoogleBooks.CleanId | src/main/java/spring_tasks/spring_project/service/BookService.java:174 | deletes the quote at the very start, if any, and the one quote where `"$` matches after it (at the end, or just before a final line terminator), if any; everything else stays, in order |
| GoogleBooks.QuoteAtEndUnique | src/main/java/spring_tasks/spring_project/service/BookService.java:174 | `"$` matches at one position at most, so `replaceAll` deletes at most one trailing quote |
| GoogleBooks.CleanIdLeadingOnly | src/main/java/spring_tasks/spring_project/service/BookService.java:174 | a quote only at the start goes |
| GoogleBooks.CleanIdTrailingOnly | src/main/java/spring_tasks/spring_project/service/BookService.java:174 | a quote only at the end goes |
| GoogleBooks.CleanIdBeforeTerminator | src/main/java/spring_tasks/spring_project/service/BookService.java:174 | a quote just before a final line terminator goes, and the terminator stays |
| GoogleBooks.CleanIdBeforeCrLf | src/main/java/spring_tasks/spring_project/service/BookService.java:174 | a quote just before a final `\r\n` goes, and the `\r\n` stays |
| GoogleBooks.CleanIdKeepsInnerQuote | src/main/java/spring_tasks/spring_project/service/BookService.java:174 | a quote inside the id stays |
| GoogleBooks.CleanIdUnquotes | src/main/java/spring_tasks/spring_project/service/BookService.java:174 | a quoted id loses exactly its surrounding quotes |
| GoogleBooks.CleanIdKeepsUnquoted | src/main/java/spring_tasks/spring_project/service/BookService.java:174 | an id without quotes is unchanged |
| GoogleBooks.CleanIdStripsOnce | src/main/java/spring_tasks/spring_project/service/BookService.java:174 | only one quote goes at each end |
| GoogleBooks.VolumeBook | src/main/java/spring_tasks/spring_project/service/BookService.java:180-211 | a failed call is a REST error; no body or no `volumeInfo` is "No book found for id: " with the cleaned id; an unreadable date is its parse error; a missing id or title is a null-pointer exception; an empty `authors` array is an index-out-of-bounds; otherwise the book has the title, the first author (or "Unknown") and the parsed date |
| GoogleBooks.ImportedBook | src/main/java/spring_tasks/spring_project/service/BookService.java:171-174 | a null request id throws a null-pointer exception when it is cleaned; otherwise the volume fetched for the cleaned id decides |
| GoogleBooks.VolumeBookAgreesWithSearch | src/main/java/spring_tasks/spring_project/service/BookService.java:187-211 | a volume imported by id gives the same title and date as its search result, and the first of its authors |
| GoogleBooks.AddViaApiFallback | src/main/java/spring_tasks/spring_project/service/BookService.java:222-231 | the placeholder is a new, unsaved book titled "Google Books API is currently unavailable" by "no author" with no date |
| GoogleBooks.SearchBooksFallback | src/main/java/spring_tasks/spring_project/service/BookService.java:156-165 | one placeholder with id "N/A", the unavailable title, authors ["N/A"] and no date |
| GoogleBooks.FallbackIsNeverAResult | src/main/java/spring_tasks/spring_project/service/BookService.java:156-165 | the placeholder list differs from every successful search result, since every mapped item has a date |
| GoogleBooks.AuthorsOrUnknown | src/main/java/spring_tasks/spring_project/service/BookService.java:130-134 | the array's texts, or ["Unknown"] when there is no array; empty only for an empty array |
| Service.NotificationMessage | src/main/java/spring_tasks/spring_project/service/BookService.java:72 | "New Book Added: ", the title, " by ", the author, with a missing field written "null" |
| ExceptionHandler.JoinFieldErrors | src/main/java/spring_tasks/spring_project/exceptionHandler/GloabalExceptionHandler.java:25 | each field error adds at least its " : ", so the joined message is empty exactly when there is no field error |
| Decimal.Show | src/main/java/spring_tasks/spring_project/controller/BookController.java:37 | a non-empty digit string, with a leading "-" exactly for a negative number |
| Controller.NotFoundMessage | src/main/java/spring_tasks/spring_project/controller/BookController.java:37 | "Book with ID ", then the id in decimal, then " not found" |
| Controller.NotFoundMessageNamesId | src/main/java/spring_tasks/spring_project/controller/BookController.java:37 | two ids give the same not-found message only when they are equal |
| Controller.ValidateBody | src/main/java/spring_tasks/spring_project/controller/BookController.java:42 | `@Valid` lets a body through exactly when it is valid, and otherwise throws with its non-empty list of field errors |
| Controller.GetAllBooks | src/main/java/spring_tasks/spring_project/controller/BookController.java:27-30 | the service's list, unchanged, with status 200 |
| Controller.FoundOrNotFound | src/main/java/spring_tasks/spring_project/controller/BookController.java:34-52 | `getBookById` and `updateBook`: a present book is a 200 with that book; an absent one becomes not-found "Book with ID <id> not found", answered 404 |
| Controller.AddBook | src/main/java/spring_tasks/spring_project/controller/BookController.java:41-45 | status 201 with the book the service saved |
| Controller.DeleteBook | src/main/java/spring_tasks/spring_project/controller/BookController.java:55-62 | 200 "Book removed" exactly when the service deleted; otherwise 404 naming the id |
| Api.GetBooks | src/main/java/spring_tasks/spring_project/controller/BookController.java:27-30 | `GET /books` answers 200 with one entry per stored book, each with that book's fields, with strictly ascending (so distinct) ids |
| Api.GetBook | src/main/java/spring_tasks/spring_project/controller/BookController.java:34-38 | `GET /books/{id}` answers 200 exactly for a stored id, with its fields, and otherwise 404 with the not-found message |
| Api.PostBook | src/main/java/spring_tasks/spring_project/controller/BookController.java:41-45 | an invalid body is answered 400 with the joined field errors, and nothing is stored or announced; a valid body is stored under a fresh id, announced when the broker is up, and answered 201 |
| Api.PutBook | src/main/java/spring_tasks/spring_project/controller/BookController.java:48-52 | an invalid body is answered 400 whatever the id; an unknown id 404; neither changes the store; otherwise only that row changes, and the answer is 200 |
| Api.DeleteBook | src/main/java/spring_tasks/spring_project/controller/BookController.java:55-62 | a stored id is removed and answered 200 "Book removed"; an unknown id is answered 404 and nothing changes |

## Left out

- HTTP: the `RestTemplate` calls, the URLs they are sent to, and the API key and base URL settings. The fetched body is an input.
- Resilience4j: circuit-breaker state, retry counts and back-off. Only the outcome is modelled: a failure of the call gives the fallback value.
- Kafka: the producer and the consumer. A send succeeds or fails according to the `brokerUp` input, and delivered messages are logged in `BookService.notifications`.
- JSON: only the fields the service reads are modelled. A JSON value of the wrong type (for example `authors` not being an array) is not modelled.
- Dates.ParsePublishedDate: a day of 29 to 31 past the end of its month is accepted as written, because java.time's smart resolver would clamp it to the month's last day and month lengths are not modelled.
- Dates.ParsePublishedDate: a signed year, or a year with more than four digits, is rejected, whereas java.time accepts a `+` sign followed by more than four digits.
- Validation.SizeOk: counts characters, not UTF-16 code units as Java's `String.length` does.
- Validation.Violations: lists the field errors in declaration order. Hibernate Validator does not promise any order, so the joined 400 message may list them differently.
- Request parsing: converting the `{id}` path segment to an `int`, and failing to read the JSON body, are not modelled. A path segment that is not a number reaches `ExceptionHandler.Handle` as `ArgumentTypeMismatch`.
- Repository.BookRepository.Save: the database may issue any fresh id. The model issues the next counter value, so the promised facts (a fresh id, ids listed in insertion order) hold of the model.
- Repository.BookRepository.Save: JPA's `merge` may return a different instance from the one passed in. The model returns the same object.
- Ids are unbounded integers, not 32-bit Java `int`s: overflow after 2^31 - 1 issued ids is not modelled.
- Repository.BookRepository.FindAllIds, Service.BookService.GetAllBooks and Service.AddedBookIsListedLast: the model fixes ascending id order, where the program's `findAll` has no `ORDER BY` and leaves the order unspecified. The repository test expects insertion order (`src/test/java/spring_tasks/spring_project/repository/BookRepositoryTest.java:57-61`), which ascending ids agree with.
- Service.BookService.AddBook: the fact that the listing after an add is the previous listing plus the new book is stated by `Service.AddedBookIsListedLast` over the old and new rows, not in AddBook's own postcondition.
- The two endpoints that the controller tests call, `GET /books/search` and `POST /books/addViaAPI`, are not mapped in `BookController`. The service operations behind them are modelled as `GoogleBooks.SearchBooksOrFallback` and `Service.BookService.AddViaApiOrFallback`.
- A null `GoogleApiRequestDTO` fails with the same null-pointer exception as a null id inside it, so the model takes the id alone, as an `Option<string>`.
- Getters are not modelled as members: the fields are read directly.
- Logging, the logging filter, security and metrics configuration, `HelloController` with its constant strings, and the commented-out in-memory controller are not part of this model.
