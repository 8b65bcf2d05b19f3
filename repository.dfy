/** The persistence store behind the service: the table of books, keyed by id,
    and the counter the database uses to issue new ids. */
module Repository {
  import opened Wrappers
  import opened Models

  /** The ids in `keys` from 1 up to, not including, `bound`, in ascending
      order: the order in which the store issued them. */
  function IdsBelow(keys: set<int>, bound: int): (ids: seq<int>)
    decreases bound
    ensures forall i :: 0 <= i < |ids| ==> ids[i] in keys && 1 <= ids[i] < bound
    ensures forall i, j :: 0 <= i < j < |ids| ==> ids[i] < ids[j]
    ensures forall id :: id in keys && 1 <= id < bound ==> id in ids
  {
    if bound <= 1 then []
    else IdsBelow(keys, bound - 1) + (if bound - 1 in keys then [bound - 1] else [])
  }

  /** The keys that `IdsBelow` lists, as a set. */
  ghost function KeysBelow(keys: set<int>, bound: int): (below: set<int>)
    decreases bound
    ensures forall id :: id in below <==> id in keys && 1 <= id < bound
  {
    if bound <= 1 then {}
    else KeysBelow(keys, bound - 1) + (if bound - 1 in keys then {bound - 1} else {})
  }

  /** The listing holds each key below the bound exactly once. */
  lemma {:induction false} IdsBelowCount(keys: set<int>, bound: int)
    decreases bound
    ensures |IdsBelow(keys, bound)| == |KeysBelow(keys, bound)|
  {
    if bound > 1 {
      IdsBelowCount(keys, bound - 1);
      assert bound - 1 !in KeysBelow(keys, bound - 1);
    }
  }

  /** When every key lies below the bound, the listing holds all of them. */
  lemma IdsBelowCountAll(keys: set<int>, bound: int)
    requires forall id :: id in keys ==> 1 <= id < bound
    ensures |IdsBelow(keys, bound)| == |keys|
  {
    IdsBelowCount(keys, bound);
    assert KeysBelow(keys, bound) == keys;
  }

  /** A key at or above the bound does not change the listing below it. */
  lemma {:induction false} IdsBelowIgnoresHigherKey(keys: set<int>, bound: int, k: int)
    requires bound <= k
    decreases bound
    ensures IdsBelow(keys + {k}, bound) == IdsBelow(keys, bound)
  {
    if bound > 1 {
      IdsBelowIgnoresHigherKey(keys, bound - 1, k);
    }
  }

  /** Issuing the next id appends it to the end of the listing. */
  lemma IdsBelowNewKey(keys: set<int>, bound: int)
    requires 1 <= bound
    ensures IdsBelow(keys + {bound}, bound + 1) == IdsBelow(keys, bound) + [bound]
  {
    IdsBelowIgnoresHigherKey(keys, bound, bound);
    assert IdsBelow(keys + {bound}, bound + 1) == IdsBelow(keys + {bound}, bound) + [bound];
  }

  /** Every stored id was issued before the counter reached `nextId`; ids
      start at 1. */
  predicate IdsIssued(rows: map<int, BookData>, nextId: int) {
    1 <= nextId && forall id :: id in rows ==> 1 <= id < nextId
  }

  class BookRepository {
    /** The rows of the table. */
    var rows: map<int, BookData>
    /** The id the database issues next. */
    var nextId: int

    /** Every id was issued before: ids start at 1 and grow. */
    ghost predicate Valid()
      reads this
    {
      IdsIssued(rows, nextId)
    }

    /** An empty table. */
    constructor ()
      ensures Valid() && rows == map[] && nextId == 1
    {
      rows, nextId := map[], 1;
    }

    /** `existsById`. */
    function ExistsById(id: int): (b: bool)
      reads this
      ensures b <==> id in rows
    {
      id in rows
    }

    /** The ids `findAll` yields, in the order their rows were saved. */
    function FindAllIds(): (ids: seq<int>)
      reads this
      requires Valid()
      ensures |ids| == |rows|
      ensures forall i :: 0 <= i < |ids| ==> ids[i] in rows
      ensures forall i, j :: 0 <= i < j < |ids| ==> ids[i] < ids[j]
      ensures forall id :: id in rows ==> id in ids
    {
      IdsBelowCountAll(rows.Keys, nextId);
      IdsBelow(rows.Keys, nextId)
    }

    /** `findById`: a new entity object holding the row, or empty. */
    method FindById(id: int) returns (found: Option<Book>)
      ensures found.Some? <==> id in rows
      ensures found.Some? ==> fresh(found.value) && found.value.id == id && found.value.Data() == rows[id]
    {
      if id in rows {
        var row := rows[id];
        var book := new Book.Of(row.title, row.author, row.publishedDate);
        book.SetId(id);
        found := Some(book);
      } else {
        found := None;
      }
    }

    /** `save`: a book whose id names a stored row overwrites that row; any
        other book (a new entity has id 0) is inserted under the next id,
        which is written back into the entity. */
    method Save(book: Book) returns (saved: Book)
      requires Valid()
      modifies this, book
      ensures Valid()
      ensures saved == book && book.Data() == old(book.Data())
      ensures old(book.id) != 0 && old(book.id) in old(rows) ==>
        book.id == old(book.id) && nextId == old(nextId)
      ensures !(old(book.id) != 0 && old(book.id) in old(rows)) ==>
        book.id == old(nextId) && nextId == old(nextId) + 1
      ensures rows == old(rows)[book.id := book.Data()]
    {
      if !(book.id != 0 && book.id in rows) {
        book.SetId(nextId);
        nextId := nextId + 1;
      }
      rows := rows[book.id := book.Data()];
      saved := book;
    }

    /** `deleteById`: removes the row if there is one. */
    method DeleteById(id: int)
      requires Valid()
      modifies this
      ensures Valid()
      ensures rows == old(rows) - {id} && nextId == old(nextId)
    {
      rows := rows - {id};
    }
  }
}
