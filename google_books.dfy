/** The book service's use of the Google Books API, apart from the HTTP calls:
    the JSON it reads, the mapping of search results, the cleaning of a volume
    id, the book built from a volume, and the fallback values that replace a
    failed call. */
module GoogleBooks {
  import opened Wrappers
  import opened Dates
  import opened Models
  import opened Exceptions

  /** The fields of a `volumeInfo` object that the service reads; `None` is an
      absent field. */
  datatype VolumeInfo = VolumeInfo(title: Option<string>, authors: Option<seq<string>>, publishedDate: Option<string>)

  /** One element of `items` in a search response. */
  datatype Item = Item(id: Option<string>, volumeInfo: Option<VolumeInfo>)

  /** A search response body. */
  datatype SearchBody = SearchBody(items: Option<seq<Item>>)

  /** A single-volume response body. */
  datatype VolumeBody = VolumeBody(id: Option<string>, volumeInfo: Option<VolumeInfo>)

  /** The outcome of `restTemplate.getForEntity`: the call threw, or it gave a
      body, which may be null. */
  datatype Fetch<T> = Unreachable | Fetched(body: Option<T>)

  /** `GoogleApiResponseDTO`. */
  datatype GoogleApiResponse = GoogleApiResponse(id: string, title: string, author: seq<string>, publishedDate: Option<LocalDate>)

  const Unavailable := "Google Books API is currently unavailable"

  /** The `authors` array's texts, or `["Unknown"]` when there is none. The
      list is empty only for an empty array. */
  function AuthorsOrUnknown(authors: Option<seq<string>>): (r: seq<string>)
    ensures authors.None? ==> r == ["Unknown"]
    ensures authors.Some? ==> r == authors.value
    ensures r == [] <==> authors == Some([])
  {
    match authors
    case None => ["Unknown"]
    case Some(names) => names
  }

  /** `volumeInfo.get("publishedDate").asText()` parsed with `yyyy[-MM[-dd]]`:
      an absent field is a null node and reading it throws. */
  function ReadDate(field: Option<string>): (r: Result<LocalDate, Exception>)
    ensures field.None? ==> r == Failure(NullPointer)
    ensures field.Some? ==> (r.Success? <==> ParsePublishedDate(field.value).Success?)
    ensures r.Success? ==> r.value == ParsePublishedDate(field.value).value
  {
    match field
    case None => Failure(NullPointer)
    case Some(text) =>
      match ParsePublishedDate(text)
      case Success(d) => Success(d)
      case Failure(e) => Failure(DateTimeParse(e))
  }

  // ---------------------------------------------------------------------------
  // searchBooks

  /** One search item as the loop body of `searchBooks` maps it: the authors
      (defaulting to `["Unknown"]`), the parsed date, then the id and title. */
  function MapItem(item: Item): (r: Result<GoogleApiResponse, Exception>)
    ensures r.Success? <==>
      && item.volumeInfo.Some? && item.id.Some? && item.volumeInfo.value.title.Some?
      && ReadDate(item.volumeInfo.value.publishedDate).Success?
    ensures r.Success? ==>
      && r.value.id == item.id.value
      && r.value.title == item.volumeInfo.value.title.value
      && r.value.author == AuthorsOrUnknown(item.volumeInfo.value.authors)
      && r.value.publishedDate == Some(ReadDate(item.volumeInfo.value.publishedDate).value)
  {
    match item.volumeInfo
    case None => Failure(NullPointer)
    case Some(info) =>
      var authors := AuthorsOrUnknown(info.authors);
      match ReadDate(info.publishedDate)
      case Failure(e) => Failure(e)
      case Success(date) =>
        if item.id.None? || info.title.None? then Failure(NullPointer)
        else Success(GoogleApiResponse(item.id.value, info.title.value, authors, Some(date)))
  }

  /** The items mapped in order; the first item that fails fails the whole
      list. */
  function MapItems(items: seq<Item>): (r: Result<seq<GoogleApiResponse>, Exception>)
    ensures r.Success? <==> forall i :: 0 <= i < |items| ==> MapItem(items[i]).Success?
    ensures r.Success? ==> |r.value| == |items|
    ensures r.Success? ==> forall i :: 0 <= i < |items| ==> r.value[i] == MapItem(items[i]).value
  {
    if items == [] then Success([])
    else
      var front := items[..|items| - 1];
      match MapItems(front)
      case Failure(e) => Failure(e)
      case Success(books) =>
        match MapItem(items[|items| - 1])
        case Failure(e) => Failure(e)
        case Success(book) => Success(books + [book])
  }

  /** Once a prefix of the items fails, the whole list fails the same way. */
  lemma {:induction false} MapItemsFailureSticks(items: seq<Item>, k: nat)
    requires k <= |items| && MapItems(items[..k]).Failure?
    decreases |items| - k
    ensures MapItems(items) == MapItems(items[..k])
  {
    if k < |items| {
      assert items[..k + 1][..k] == items[..k];
      MapItemsFailureSticks(items, k + 1);
    } else {
      assert items[..k] == items;
    }
  }

  /** The error of a failed list is that of its first failing item. */
  lemma {:induction false} MapItemsFirstFailure(items: seq<Item>, k: nat)
    requires k < |items| && MapItem(items[k]).Failure?
    requires forall j :: 0 <= j < k ==> MapItem(items[j]).Success?
    ensures MapItems(items) == Failure(MapItem(items[k]).error)
  {
    assert items[..k + 1][..k] == items[..k];
    assert MapItems(items[..k]).Success?;
    MapItemsFailureSticks(items, k + 1);
  }

  /** What `searchBooks` gives for a fetched response: no body, no `items` or
      empty `items` give the empty list, otherwise the mapped items. */
  function SearchResult(fetched: Fetch<SearchBody>): Result<seq<GoogleApiResponse>, Exception> {
    match fetched
    case Unreachable => Failure(RestClient)
    case Fetched(body) =>
      if body.None? || body.value.items.None? || body.value.items.value == [] then Success([])
      else MapItems(body.value.items.value)
  }

  /** `searchBooks` after its HTTP call: builds the result list item by item. */
  method SearchBooks(fetched: Fetch<SearchBody>) returns (r: Result<seq<GoogleApiResponse>, Exception>)
    ensures r == SearchResult(fetched)
  {
    if fetched.Unreachable? {
      return Failure(RestClient);
    }
    var body := fetched.body;
    if body.None? || body.value.items.None? || body.value.items.value == [] {
      return Success([]);
    }
    var items := body.value.items.value;
    var books: seq<GoogleApiResponse> := [];
    var i := 0;
    while i < |items|
      invariant 0 <= i <= |items|
      invariant MapItems(items[..i]) == Success(books)
    {
      var book := MapItem(items[i]);
      assert items[..i + 1][..i] == items[..i];
      if book.Failure? {
        MapItemsFailureSticks(items, i + 1);
        return Failure(book.error);
      }
      books := books + [book.value];
      i := i + 1;
    }
    assert items[..i] == items;
    r := Success(books);
  }

  /** `searchBooksFallback`: the single placeholder result. */
  function SearchBooksFallback(): (r: seq<GoogleApiResponse>)
    ensures |r| == 1 && r[0].id == "N/A" && r[0].title == Unavailable
    ensures r[0].author == ["N/A"] && r[0].publishedDate.None?
  {
    [GoogleApiResponse("N/A", Unavailable, ["N/A"], None)]
  }

  /** The placeholder is never a real search result: a result is either empty
      or made of mapped items, and every mapped item carries a date. */
  lemma FallbackIsNeverAResult(fetched: Fetch<SearchBody>)
    requires SearchResult(fetched).Success?
    ensures SearchResult(fetched).value != SearchBooksFallback()
  {
    var r := SearchResult(fetched).value;
    if r != [] {
      var items := fetched.body.value.items.value;
      assert r[0] == MapItem(items[0]).value;
      assert r[0].publishedDate.Some?;
    }
  }

  /** `searchBooks` behind its circuit breaker and retry: whatever makes the
      call fail, the caller gets the placeholder instead of an error. */
  method SearchBooksOrFallback(fetched: Fetch<SearchBody>) returns (r: seq<GoogleApiResponse>)
    ensures SearchResult(fetched).Success? ==> r == SearchResult(fetched).value
    ensures SearchResult(fetched).Failure? ==> r == SearchBooksFallback()
  {
    var result := SearchBooks(fetched);
    r := if result.Success? then result.value else SearchBooksFallback();
  }

  /** A search over a non-empty item list fails exactly when some item fails
      to map, and otherwise yields one result per item, in item order. */
  lemma SearchOutcomes(items: seq<Item>)
    requires items != []
    ensures var r := SearchResult(Fetched(Some(SearchBody(Some(items)))));
      && (r.Success? ==> |r.value| == |items| && forall i :: 0 <= i < |items| ==> r.value[i].id == items[i].id.value)
      && (r.Failure? <==> exists k :: 0 <= k < |items| && MapItem(items[k]).Failure?)
  {
  }

  // ---------------------------------------------------------------------------
  // addViaApi

  /** True when `"$` matches at `j`: a quote at the end of the text, or just
      before a final line terminator (Java's `$` matches there too). */
  predicate IsLineTerminator(c: char) {
    c == '\n' || c == '\r' || c == '\U{0085}' || c == '\U{2028}' || c == '\U{2029}'
  }

  predicate QuoteAtEnd(s: string, j: nat) {
    && j < |s| && s[j] == '"'
    && (|| j + 1 == |s|
        || (j + 2 == |s| && IsLineTerminator(s[j + 1]))
        || (j + 3 == |s| && s[j + 1] == '\r' && s[j + 2] == '\n'))
  }

  /** Where the alternative `"$` of `^"|"$` matches at or after `from`. */
  function TrailingQuote(s: string, from: nat): (r: Option<nat>)
    ensures r.Some? ==> from <= r.value && QuoteAtEnd(s, r.value)
    ensures r.None? ==> forall j :: from <= j < |s| ==> !QuoteAtEnd(s, j)
  {
    var n := |s|;
    if n >= from + 1 && QuoteAtEnd(s, n - 1) then Some(n - 1)
    else if n >= from + 2 && QuoteAtEnd(s, n - 2) then Some(n - 2)
    else if n >= from + 3 && QuoteAtEnd(s, n - 3) then Some(n - 3)
    else None
  }

  /** `"$` matches at most once. */
  lemma QuoteAtEndUnique(s: string, j: nat, k: nat)
    requires QuoteAtEnd(s, j) && QuoteAtEnd(s, k)
    ensures j == k
  {
  }

  /** 1 when the alternative `^"` matches, else 0. */
  function LeadingQuote(id: string): nat {
    if |id| > 0 && id[0] == '"' then 1 else 0
  }

  /** `id.replaceAll("^\"|\"$", "")`: removes the quote at the very start,
      if any, and the quote where `"$` matches after it, if any (at the end,
      or just before a final line terminator); every other character stays,
      in order. */
  function CleanId(id: string): (r: string)
    ensures |id| - 2 <= |r| <= |id|
    ensures forall j :: LeadingQuote(id) <= j && QuoteAtEnd(id, j) ==>
      r == id[LeadingQuote(id)..j] + id[j + 1..]
    ensures (forall j :: LeadingQuote(id) <= j < |id| ==> !QuoteAtEnd(id, j)) ==>
      r == id[LeadingQuote(id)..]
  {
    var lead := LeadingQuote(id);
    match TrailingQuote(id, lead)
    case None => id[lead..]
    case Some(j) =>
      assert forall k :: QuoteAtEnd(id, k) ==> k == j by {
        forall k | QuoteAtEnd(id, k) ensures k == j { QuoteAtEndUnique(id, j, k); }
      }
      id[lead..j] + id[j + 1..]
  }

  /** A quote only at the start goes. */
  lemma CleanIdLeadingOnly(x: string)
    requires forall i :: 0 <= i < |x| ==> x[i] != '"'
    ensures CleanId("\"" + x) == x
  {
    assert ("\"" + x)[1..] == x;
  }

  /** A quote only at the end goes. */
  lemma CleanIdTrailingOnly(x: string)
    requires |x| > 0 ==> x[0] != '"'
    ensures CleanId(x + "\"") == x
  {
    var s := x + "\"";
    assert QuoteAtEnd(s, |s| - 1);
    if |x| > 0 {
      assert s[..|s| - 1] == x;
    }
  }

  /** A quote just before a final line terminator goes; the terminator
      stays. */
  lemma CleanIdBeforeTerminator(x: string, t: char)
    requires IsLineTerminator(t)
    requires |x| > 0 && x[0] != '"'
    ensures CleanId(x + "\"" + [t]) == x + [t]
  {
    var s := x + "\"" + [t];
    assert QuoteAtEnd(s, |s| - 2);
    assert s[..|s| - 2] == x && s[|s| - 1..] == [t];
  }

  /** A quote just before a final `\r\n` goes too. */
  lemma CleanIdBeforeCrLf(x: string)
    requires |x| > 0 && x[0] != '"'
    ensures CleanId(x + "\"\r\n") == x + "\r\n"
  {
    var s := x + "\"\r\n";
    assert QuoteAtEnd(s, |s| - 3);
    assert s[..|s| - 3] == x && s[|s| - 2..] == "\r\n";
  }

  /** A quote inside the id stays, unless all that follows it is a line
      terminator. */
  lemma CleanIdKeepsInnerQuote(x: string, y: string)
    requires forall i :: 0 <= i < |x| ==> x[i] != '"'
    requires forall i :: 0 <= i < |y| ==> y[i] != '"'
    requires |x| > 0 && |y| > 0 && !IsLineTerminator(y[|y| - 1])
    ensures CleanId(x + "\"" + y) == x + "\"" + y
  {
    var s := x + "\"" + y;
    assert s[|s| - 1] == y[|y| - 1];
    assert forall i :: 0 <= i < |s| && s[i] == '"' ==> i == |x|;
  }

  /** Stripping a surrounding pair of quotes gives back what they enclosed,
      whatever it contains. */
  lemma CleanIdUnquotes(x: string)
    ensures CleanId("\"" + x + "\"") == x
  {
    var s := "\"" + x + "\"";
    assert QuoteAtEnd(s, |s| - 1);
    assert s[1..|s| - 1] == x;
  }

  /** An id with no quote is left as it is. */
  lemma CleanIdKeepsUnquoted(id: string)
    requires forall i :: 0 <= i < |id| ==> id[i] != '"'
    ensures CleanId(id) == id
  {
  }

  /** At most one leading and one trailing quote go: a doubly quoted id keeps
      its inner pair. */
  lemma CleanIdStripsOnce(x: string)
    ensures CleanId("\"\"" + x + "\"\"") == "\"" + x + "\""
  {
    var s := "\"\"" + x + "\"\"";
    assert QuoteAtEnd(s, |s| - 1);
    assert s[1..|s| - 1] == "\"" + x + "\"";
  }

  /** The not-found message of `addViaApi`. */
  function NoBookFound(cleanId: string): string {
    "No book found for id: " + cleanId
  }

  /** The book `addViaApi` builds from a fetched volume, before saving it: the
      volume's title, its first author (`"Unknown"` when none is listed) and
      its parsed date. No body or no `volumeInfo` means not found; an absent
      id, title or date, or an empty author list, makes the call throw. */
  function VolumeBook(fetched: Fetch<VolumeBody>, cleanId: string): (r: Result<BookData, Exception>)
    ensures fetched.Unreachable? ==> r == Failure(RestClient)
    ensures fetched.Fetched? && (fetched.body.None? || fetched.body.value.volumeInfo.None?) ==>
      r == Failure(NoSuchElement(NoBookFound(cleanId)))
    ensures fetched.Fetched? && fetched.body.Some? && fetched.body.value.volumeInfo.Some? ==>
      var v := fetched.body.value;
      var info := v.volumeInfo.value;
      var date := ReadDate(info.publishedDate);
      && (date.Failure? ==> r == Failure(date.error))
      && (date.Success? && (v.id.None? || info.title.None?) ==> r == Failure(NullPointer))
      && (date.Success? && v.id.Some? && info.title.Some? && info.authors == Some([]) ==>
            r == Failure(IndexOutOfBounds))
      && (r.Success? <==> date.Success? && v.id.Some? && info.title.Some? && info.authors != Some([]))
      && (r.Success? ==>
            r.value == BookData(info.title, Some(AuthorsOrUnknown(info.authors)[0]), Some(date.value)))
  {
    match fetched
    case Unreachable => Failure(RestClient)
    case Fetched(body) =>
      if body.None? || body.value.volumeInfo.None? then Failure(NoSuchElement(NoBookFound(cleanId)))
      else
        var info := body.value.volumeInfo.value;
        var authors := AuthorsOrUnknown(info.authors);
        match ReadDate(info.publishedDate)
        case Failure(e) => Failure(e)
        case Success(date) =>
          if body.value.id.None? || info.title.None? then Failure(NullPointer)
          else if authors == [] then Failure(IndexOutOfBounds)
          else Success(BookData(Some(info.title.value), Some(authors[0]), Some(date)))
  }

  /** The book `addViaApi` builds for a request: a null id throws when it is
      cleaned; otherwise the volume fetched for the cleaned id decides. */
  function ImportedBook(requestId: Option<string>, fetched: Fetch<VolumeBody>): (r: Result<BookData, Exception>)
    ensures requestId.None? ==> r == Failure(NullPointer)
    ensures requestId.Some? ==> r == VolumeBook(fetched, CleanId(requestId.value))
  {
    match requestId
    case None => Failure(NullPointer)
    case Some(id) => VolumeBook(fetched, CleanId(id))
  }

  /** The book imported by id agrees with the search result for the same
      volume: same title and date, and its author is the first of the
      result's authors. Only an empty author list tells the two apart. */
  lemma VolumeBookAgreesWithSearch(id: string, info: VolumeInfo, cleanId: string)
    requires info.authors != Some([])
    ensures var imported := VolumeBook(Fetched(Some(VolumeBody(Some(id), Some(info)))), cleanId);
      var found := MapItem(Item(Some(id), Some(info)));
      && (imported.Success? <==> found.Success?)
      && (imported.Success? ==>
            && imported.value.title == Some(found.value.title)
            && imported.value.author == Some(found.value.author[0])
            && imported.value.publishedDate == found.value.publishedDate)
  {
  }

  /** `addViaApiFallback`: an unsaved placeholder book. */
  method AddViaApiFallback() returns (book: Book)
    ensures fresh(book)
    ensures book.id == 0 && book.Data() == BookData(Some(Unavailable), Some("no author"), None)
  {
    book := new Book.Of(Some(Unavailable), Some("no author"), None);
  }
}
