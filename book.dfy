/** The `Book` entity: a persisted book whose fields are rewritten in place by
    its setters. */
module Models {
  import opened Wrappers
  import opened Dates

  /** The stored columns of a book apart from its id. A `None` is a Java
      `null`. */
  datatype BookData = BookData(title: Option<string>, author: Option<string>, publishedDate: Option<LocalDate>)

  class Book {
    var id: int
    var title: Option<string>
    var author: Option<string>
    var publishedDate: Option<LocalDate>

    /** `new Book()`: every field keeps its Java default (0 and null). */
    constructor ()
      ensures id == 0 && title == None && author == None && publishedDate == None
    {
      id, title, author, publishedDate := 0, None, None, None;
    }

    /** `new Book(title, author, publishedDate)`: the id stays at its default 0
        until the store assigns one. */
    constructor Of(title: Option<string>, author: Option<string>, publishedDate: Option<LocalDate>)
      ensures id == 0
      ensures this.title == title && this.author == author && this.publishedDate == publishedDate
    {
      this.id := 0;
      this.title, this.author, this.publishedDate := title, author, publishedDate;
    }

    /** The columns the store keeps for this book. */
    function Data(): (d: BookData)
      reads this
      ensures d.title == title && d.author == author && d.publishedDate == publishedDate
    {
      BookData(title, author, publishedDate)
    }

    method SetId(id: int)
      modifies this
      ensures this.id == id
      ensures title == old(title) && author == old(author) && publishedDate == old(publishedDate)
    {
      this.id := id;
    }

    method SetTitle(title: Option<string>)
      modifies this
      ensures this.title == title
      ensures id == old(id) && author == old(author) && publishedDate == old(publishedDate)
    {
      this.title := title;
    }

    method SetAuthor(author: Option<string>)
      modifies this
      ensures this.author == author
      ensures id == old(id) && title == old(title) && publishedDate == old(publishedDate)
    {
      this.author := author;
    }

    method SetPublishedDate(publishedDate: Option<LocalDate>)
      modifies this
      ensures this.publishedDate == publishedDate
      ensures id == old(id) && title == old(title) && author == old(author)
    {
      this.publishedDate := publishedDate;
    }
  }
}
