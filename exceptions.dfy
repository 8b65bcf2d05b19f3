/** The exceptions that reach the global exception handler. */
module Exceptions {
  import opened Validation
  import opened Dates

  datatype Exception =
    | NoSuchElement(message: string)                 // java.util.NoSuchElementException
    | ArgumentNotValid(fieldErrors: seq<FieldError>)  // a request body failed validation
    | ArgumentTypeMismatch                           // a path variable is not an int
    | NullPointer                                    // text read from an absent JSON field
    | DateTimeParse(cause: DateError)                // a published date that does not parse
    | IndexOutOfBounds                               // the first author of an empty list
    | RestClient                                     // the HTTP call to the books API failed
}
