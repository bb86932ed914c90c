/**
 * The bookstore's books table as a mutable store. The rows live in storage
 * order in `books`; `lastId` is the AUTOINCREMENT counter, the largest id
 * ever issued. The user's typed inputs and yes/no answers are parameters.
 */
module Bookstore {
  import opened Text
  import opened Catalog

  /** What an add, update or delete reports. */
  datatype Outcome =
    | Added(id: int)
    | Updated
    | Deleted
    | Cancelled
    | IdNotInteger
    | QuantityNotInteger
    | NotFound

  class Store {
    var books: seq<Book>
    var lastId: int

    /**
     * Ids are positive, never above the counter, and increase along storage
     * order (hence are unique).
     */
    ghost predicate Valid()
      reads this
    {
      0 <= lastId && AscendingIds(books) && forall b :: b in books ==> 1 <= b.id <= lastId
    }

    /** A freshly created, empty books table. */
    constructor ()
      ensures Valid()
      ensures books == [] && lastId == 0
    {
      books := [];
      lastId := 0;
    }

    /**
     * add_book: the quantity must parse as an integer (negative values are
     * accepted) and the answer must confirm; then the row is inserted under
     * the next id.
     */
    method Add(title: string, author: string, quantityInput: string, answer: string) returns (r: Outcome)
      requires Valid()
      modifies this
      ensures Valid() && UniqueIds(books)
      ensures lastId >= old(lastId)
      ensures r.Added? || r == QuantityNotInteger || r == Cancelled
      ensures r == QuantityNotInteger <==> ParseInt(quantityInput).None?
      ensures r == Cancelled <==> ParseInt(quantityInput).Some? && !Confirmed(answer)
      ensures !r.Added? ==> books == old(books) && lastId == old(lastId)
      ensures r.Added? ==>
        r.id == lastId == old(lastId) + 1 &&
        books == old(books) + [Book(r.id, title, author, ParseInt(quantityInput).value)]
      ensures r.Added? ==> forall b :: b in old(books) ==> b.id < r.id
    {
      var quantity := ParseInt(quantityInput);
      if quantity.None? {
        return QuantityNotInteger;
      }
      if !Confirmed(answer) {
        return Cancelled;
      }
      var id := lastId + 1;
      var row := Book(id, title, author, quantity.value);
      AppendKeepsAscending(books, row);
      books := books + [row];
      lastId := id;
      forall x | x in books ensures 1 <= x.id <= lastId {
        if x != row {
          assert x in old(books);
        }
      }
      r := Added(id);
    }

    /**
     * update_book: the id must parse and name a stored row; blank inputs keep
     * the stored title, author and quantity, a non-blank quantity must parse;
     * the row is overwritten only when the answer confirms.
     */
    method Update(idInput: string, titleInput: string, authorInput: string, quantityInput: string, answer: string)
      returns (r: Outcome)
      requires Valid()
      modifies this
      ensures Valid() && UniqueIds(books)
      ensures lastId == old(lastId)
      ensures r in {Updated, Cancelled, IdNotInteger, QuantityNotInteger, NotFound}
      ensures r != Updated ==> books == old(books)
      ensures r == IdNotInteger <==> ParseInt(idInput).None?
      ensures ParseInt(idInput).Some? ==>
        (r == NotFound <==> Lookup(old(books), ParseInt(idInput).value).None?)
      ensures ParseInt(idInput).Some? && Lookup(old(books), ParseInt(idInput).value).Some? ==>
        var b := Lookup(old(books), ParseInt(idInput).value).value;
        var nb := Revised(b, titleInput, authorInput, quantityInput);
        (r == QuantityNotInteger <==> nb.None?) &&
        (r == Cancelled <==> nb.Some? && !Confirmed(answer)) &&
        (r == Updated <==> nb.Some? && Confirmed(answer)) &&
        (r == Updated ==>
          books == Overwrite(old(books), b.id, nb.value.title, nb.value.author, nb.value.quantity))
    {
      var id := ParseInt(idInput);
      if id.None? {
        return IdNotInteger;
      }
      var found := Lookup(books, id.value);
      if found.None? {
        return NotFound;
      }
      var revised := Revised(found.value, titleInput, authorInput, quantityInput);
      if revised.None? {
        return QuantityNotInteger;
      }
      if !Confirmed(answer) {
        return Cancelled;
      }
      var nb := revised.value;
      OverwriteKeepsIds(books, id.value, nb.title, nb.author, nb.quantity, lastId);
      books := Overwrite(books, id.value, nb.title, nb.author, nb.quantity);
      r := Updated;
    }

    /**
     * delete_book: the id must parse and name a stored row and the answer
     * must confirm; then the row is deleted and every larger id drops by one,
     * the two statements taking effect together.
     */
    method Delete(idInput: string, answer: string) returns (r: Outcome)
      requires Valid()
      modifies this
      ensures Valid() && UniqueIds(books)
      ensures lastId == old(lastId)
      ensures r in {Deleted, Cancelled, IdNotInteger, NotFound}
      ensures r != Deleted ==> books == old(books)
      ensures r == IdNotInteger <==> ParseInt(idInput).None?
      ensures ParseInt(idInput).Some? ==>
        (r == NotFound <==> Lookup(old(books), ParseInt(idInput).value).None?)
      ensures r == Deleted <==>
        ParseInt(idInput).Some? && Lookup(old(books), ParseInt(idInput).value).Some? && Confirmed(answer)
      ensures r == Deleted ==> books == AfterDelete(old(books), ParseInt(idInput).value)
    {
      var id := ParseInt(idInput);
      if id.None? {
        return IdNotInteger;
      }
      var k := id.value;
      var found := Lookup(books, k);
      if found.None? {
        return NotFound;
      }
      if !Confirmed(answer) {
        return Cancelled;
      }
      DeleteKeepsAscending(books, k);
      DeleteKeepsIdsInRange(books, k, lastId);
      books := RemoveId(books, k);
      books := ShiftDown(books, k);
      r := Deleted;
    }
  }

  /**
   * The worked example of the bookstore: add "Dune" by Herbert (5 copies)
   * and "Hobbit" by Tolkien (3 copies), delete id 1, then search by author
   * for "tolkien": the Hobbit comes back, renumbered to id 1.
   */
  method RenumberingScenario() returns (result: SearchResult)
    ensures result == Found([Book(1, "Hobbit", "Tolkien", 3)])
  {
    ParseSingleDigit('5');
    ParseSingleDigit('3');
    ParseSingleDigit('1');
    var store := new Store();
    var added := store.Add("Dune", "Herbert", "5", "yes");
    assert store.books == [Book(1, "Dune", "Herbert", 5)];
    added := store.Add("Hobbit", "Tolkien", "3", "yes");
    var before := [Book(1, "Dune", "Herbert", 5), Book(2, "Hobbit", "Tolkien", 3)];
    assert store.books == before;
    var deleted := store.Delete("1", "yes");
    DeleteEffect(before, 0);
    var hobbit := Book(1, "Hobbit", "Tolkien", 3);
    var rows := store.books;
    assert rows[0] == Renumbered(before[1], 1);
    assert rows == [hobbit];
    AuthorSearchIgnoresCase();
    result := Search(rows, "author", "tolkien");
  }

  /**
   * Renumbering closes the gap a deletion leaves, but the id counter is not
   * wound back: after two adds and the deletion of id 1, the next add gets
   * id 3, so the ids are 1 and 3.
   */
  method GapAfterDeleteScenario() returns (ids: seq<int>)
    ensures ids == [1, 3]
  {
    ParseSingleDigit('1');
    var store := new Store();
    var outcome := store.Add("Dune", "Herbert", "1", "yes");
    outcome := store.Add("Hobbit", "Tolkien", "1", "yes");
    var before := [Book(1, "Dune", "Herbert", 1), Book(2, "Hobbit", "Tolkien", 1)];
    assert store.books == before;
    outcome := store.Delete("1", "yes");
    DeleteEffect(before, 0);
    var after := store.books;
    assert after[0] == Renumbered(before[1], 1);
    assert after == [Book(1, "Hobbit", "Tolkien", 1)];
    outcome := store.Add("Emma", "Austen", "1", "yes");
    assert outcome == Added(3);
    ids := [store.books[0].id, store.books[1].id];
  }
}
