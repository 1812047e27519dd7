/**
 * The book catalog: adding a book under the global cap on total copies,
 * and editing one under the cap and the copies-on-loan rule.
 *
 * The release date arrives already parsed (`None` for the text the date
 * parser rejects); Java's null publisher and isbn of a fresh book are "".
 */
module BookServiceImpl {

  import opened JavaInt
  import opened Wrappers
  import opened Dates
  import opened Response
  import opened Entity
  import opened Repository
  import opened Text
  import opened Catalog

  /** A book row with the descriptive fields `add` and `edit` set, the genre upper-cased. */
  function EditedBook(row: ItemRow, title: string, author: string, publisher: string, genre: string,
                      isbn: string, releaseDate: Option<Date>): ItemRow {
    row.(title := title, author := author, genre := ToUpperAscii(genre), releaseDate := releaseDate,
         details := BookDetails(publisher, isbn))
  }

  /**
   * The plain setters `add` and `edit` call, in their order: title, author,
   * publisher, the upper-cased genre, isbn and release date.
   */
  method SetBookFields(book: Item, title: string, author: string, publisher: string, genre: string,
                       isbn: string, releaseDate: Option<Date>)
    requires book.details.BookDetails?
    modifies book`title, book`author, book`details, book`genre, book`releaseDate
    ensures book.Row() == EditedBook(old(book.Row()), title, author, publisher, genre, isbn, releaseDate)
  {
    book.title := title;
    book.author := author;
    book.details := book.details.(publisher := publisher);
    book.genre := ToUpperAscii(genre);
    book.details := book.details.(isbn := isbn);
    book.releaseDate := releaseDate;
  }

  /**
   * `add`: OK exactly when the catalog sum (0 on an empty table) plus the
   * new count stays within the cap. The new book is stored under the next
   * identity value with the given fields, the genre upper-cased, and as many
   * copies available as it owns; a negative count is stored as given, with
   * no copy available and the status false.
   */
  method Add(db: Database, title: string, author: string, publisher: string, genre: string,
             isbn: string, releaseDate: Option<Date>, totalCopies: Int32) returns (code: Code)
    requires db.Valid()
    modifies db
    ensures db.Valid()
    ensures code == AddOutcome(old(db.items), totalCopies)
    ensures code != OK ==> unchanged(db)
    ensures code == OK ==>
              && old(db.nextItemId) !in old(db.items)
              && db.items == old(db.items)[old(db.nextItemId) :=
                   ItemRow(totalCopies > 0, author, title, releaseDate, ToUpperAscii(genre), totalCopies,
                           if totalCopies >= 0 then totalCopies else 0, BookDetails(publisher, isbn))]
              && db.nextItemId == old(db.nextItemId) + 1
              && unchanged(db`users, db`reservations, db`nextReservationId)
    ensures code == OK ==> TotalCopies(db.items) == TotalCopies(old(db.items)) + totalCopies <= MaxTotalCopies
    ensures code == OK && totalCopies >= 0 ==> db.items[old(db.nextItemId)].availableCopies == totalCopies
    ensures AllCopiesValid(old(db.items)) && totalCopies >= 0 ==> AllCopiesValid(db.items)
  {
    var sum := db.SumTotalCopies();
    var sumTotalCopies := if sum.None? then 0 else sum.value;
    if sumTotalCopies + totalCopies <= MaxTotalCopies {
      var book := new Item.Blank(BookDetails("", ""));
      SetBookFields(book, title, author, publisher, genre, isbn, releaseDate);
      book.SetTotalCopies(totalCopies);
      book.SetAvailableCopies(totalCopies);
      AllCopiesValidAfterSave(db.items, db.nextItemId, book.Row());
      book.id := db.InsertItem(book.Row());
      return OK;
    }
    return MAX_ITEMS_REACHED;
  }

  /**
   * `edit` as written: the answer follows `EditOutcome` and only OK changes
   * anything. Every field given is overwritten, but the availability delta
   * is taken after the new total is already stored, so it is 0 and
   * availableCopies keeps its old value whatever the new total is.
   */
  method Edit(db: Database, id: int, title: string, author: string, publisher: string, genre: string,
              isbn: string, releaseDate: Option<Date>, totalCopies: Int32) returns (code: Code)
    requires db.Valid()
    modifies db
    ensures db.Valid()
    ensures code == EditOutcome(old(db.items), id, "BOOK", totalCopies)
    ensures code != OK ==> unchanged(db)
    ensures code == OK ==>
              var row := old(db.items)[id];
              && db.items == old(db.items)[id := ResizedAsWritten(EditedBook(row, title, author, publisher, genre,
                                                                             isbn, releaseDate), totalCopies)]
              && unchanged(db`users, db`reservations, db`nextItemId, db`nextReservationId)
    ensures code == OK ==> db.items[id].availableCopies == old(db.items)[id].availableCopies
    ensures code == OK ==> TotalCopies(db.items) <= MaxTotalCopies
  {
    if id !in db.items || !db.items[id].details.BookDetails? {
      return NOT_FOUND;
    }
    var book := new Item.Load(id, db.items[id]);
    var sum := db.SumTotalCopies();
    if sum.value - book.totalCopies + totalCopies <= MaxTotalCopies {
      if Sub(book.totalCopies, book.availableCopies) <= totalCopies {
        SetBookFields(book, title, author, publisher, genre, isbn, releaseDate);
        book.SetTotalCopies(totalCopies);
        book.SetAvailableCopies(JavaInt.Add(book.availableCopies, Sub(totalCopies, book.totalCopies)));
        db.UpdateItem(id, book.Row());
        return OK;
      }
      return INVALID_TOTAL_COPIES;
    }
    return MAX_ITEMS_REACHED;
  }

  /**
   * `edit` as evidently intended: the delta between the new and the old
   * total is taken before the new total is stored, so the copies on loan
   * stay on loan and valid counts stay valid.
   */
  method EditKeepingLoans(db: Database, id: int, title: string, author: string, publisher: string,
                          genre: string, isbn: string, releaseDate: Option<Date>, totalCopies: Int32)
    returns (code: Code)
    requires db.Valid()
    modifies db
    ensures db.Valid()
    ensures code == EditOutcome(old(db.items), id, "BOOK", totalCopies)
    ensures code != OK ==> unchanged(db)
    ensures code == OK ==>
              var row := old(db.items)[id];
              && db.items == old(db.items)[id := ResizedKeepingLoans(EditedBook(row, title, author, publisher, genre,
                                                                                isbn, releaseDate), totalCopies)]
              && unchanged(db`users, db`reservations, db`nextItemId, db`nextReservationId)
    ensures code == OK ==> TotalCopies(db.items) <= MaxTotalCopies
    ensures AllCopiesValid(old(db.items)) ==> AllCopiesValid(db.items)
  {
    if id !in db.items || !db.items[id].details.BookDetails? {
      return NOT_FOUND;
    }
    var book := new Item.Load(id, db.items[id]);
    var sum := db.SumTotalCopies();
    if sum.value - book.totalCopies + totalCopies <= MaxTotalCopies {
      if Sub(book.totalCopies, book.availableCopies) <= totalCopies {
        var delta := Sub(totalCopies, book.totalCopies);
        ghost var edited := EditedBook(book.Row(), title, author, publisher, genre, isbn, releaseDate);
        SetBookFields(book, title, author, publisher, genre, isbn, releaseDate);
        book.SetTotalCopies(totalCopies);
        book.SetAvailableCopies(JavaInt.Add(book.availableCopies, delta));
        assert book.Row() == ResizedKeepingLoans(edited, totalCopies);
        AllCopiesValidAfterSave(db.items, id, book.Row());
        db.UpdateItem(id, book.Row());
        return OK;
      }
      return INVALID_TOTAL_COPIES;
    }
    return MAX_ITEMS_REACHED;
  }

  /**
   * The discrepancy of `Edit`, on concrete input: a 10-copy book with no
   * copy on loan, edited down to 3 copies, is accepted and still shows 10
   * copies available, more than it owns.
   */
  method EditShrinksBelowAvailable() returns (code: Code, row: ItemRow)
    ensures code == OK
    ensures row.totalCopies == 3 && row.availableCopies == 10
    ensures !row.CopiesValid()
  {
    var db := new Database.Empty();
    var added := Add(db, "Title", "Author", "Publisher", "novel", "isbn", None, 10);
    assert added == OK;
    assert db.items.Keys == {1};
    SumOverRemove(db.items, {1}, 1);
    assert {1} - {1} == {};
    code := Edit(db, 1, "Title", "Author", "Publisher", "novel", "isbn", None, 3);
    row := db.items[1];
  }
}
