/**
 * The DVD catalog: the same cap and copy rules as the book catalog. The
 * director is stored in the item's `author` field.
 */
module DvdServiceImpl {

  import opened JavaInt
  import opened Wrappers
  import opened Dates
  import opened Response
  import opened Entity
  import opened Repository
  import opened Text
  import opened Catalog

  /** A DVD row with the descriptive fields `add` and `edit` set, the genre upper-cased. */
  function EditedDvd(row: ItemRow, title: string, director: string, duration: string, genre: string,
                     releaseDate: Option<Date>): ItemRow {
    row.(title := title, author := director, genre := ToUpperAscii(genre), releaseDate := releaseDate,
         details := DvdDetails(duration))
  }

  /**
   * The plain setters `add` and `edit` call: title, the director as author,
   * duration, the upper-cased genre and release date (`add` sets the date
   * before the duration; the two orders leave the same entity).
   */
  method SetDvdFields(dvd: Item, title: string, director: string, duration: string, genre: string,
                      releaseDate: Option<Date>)
    requires dvd.details.DvdDetails?
    modifies dvd`title, dvd`author, dvd`details, dvd`genre, dvd`releaseDate
    ensures dvd.Row() == EditedDvd(old(dvd.Row()), title, director, duration, genre, releaseDate)
  {
    dvd.title := title;
    dvd.author := director;
    dvd.details := dvd.details.(duration := duration);
    dvd.genre := ToUpperAscii(genre);
    dvd.releaseDate := releaseDate;
  }

  /**
   * `add`: OK exactly when the catalog sum (0 on an empty table) plus the
   * new count stays within the cap. The new DVD is stored under the next
   * identity value with as many copies available as it owns; a negative
   * count is stored as given, with no copy available and the status false.
   */
  method Add(db: Database, title: string, director: string, duration: string, genre: string,
             releaseDate: Option<Date>, totalCopies: Int32) returns (code: Code)
    requires db.Valid()
    modifies db
    ensures db.Valid()
    ensures code == AddOutcome(old(db.items), totalCopies)
    ensures code != OK ==> unchanged(db)
    ensures code == OK ==>
              && old(db.nextItemId) !in old(db.items)
              && db.items == old(db.items)[old(db.nextItemId) :=
                   ItemRow(totalCopies > 0, director, title, releaseDate, ToUpperAscii(genre), totalCopies,
                           if totalCopies >= 0 then totalCopies else 0, DvdDetails(duration))]
              && db.nextItemId == old(db.nextItemId) + 1
              && unchanged(db`users, db`reservations, db`nextReservationId)
    ensures code == OK ==> TotalCopies(db.items) == TotalCopies(old(db.items)) + totalCopies <= MaxTotalCopies
    ensures code == OK && totalCopies >= 0 ==> db.items[old(db.nextItemId)].availableCopies == totalCopies
    ensures AllCopiesValid(old(db.items)) && totalCopies >= 0 ==> AllCopiesValid(db.items)
  {
    var sum := db.SumTotalCopies();
    var sumTotalCopies := if sum.None? then 0 else sum.value;
    if sumTotalCopies + totalCopies <= MaxTotalCopies {
      var dvd := new Item.Blank(DvdDetails(""));
      SetDvdFields(dvd, title, director, duration, genre, releaseDate);
      dvd.SetTotalCopies(totalCopies);
      dvd.SetAvailableCopies(totalCopies);
      AllCopiesValidAfterSave(db.items, db.nextItemId, dvd.Row());
      dvd.id := db.InsertItem(dvd.Row());
      return OK;
    }
    return MAX_ITEMS_REACHED;
  }

  /**
   * `edit` as written: the answer follows `EditOutcome` and only OK changes
   * anything; availableCopies keeps its old value, because the delta is
   * taken after the new total is stored.
   */
  method Edit(db: Database, id: int, title: string, director: string, duration: string, genre: string,
              releaseDate: Option<Date>, totalCopies: Int32) returns (code: Code)
    requires db.Valid()
    modifies db
    ensures db.Valid()
    ensures code == EditOutcome(old(db.items), id, "DVD", totalCopies)
    ensures code != OK ==> unchanged(db)
    ensures code == OK ==>
              var row := old(db.items)[id];
              && db.items == old(db.items)[id := ResizedAsWritten(EditedDvd(row, title, director, duration, genre,
                                                                            releaseDate), totalCopies)]
              && unchanged(db`users, db`reservations, db`nextItemId, db`nextReservationId)
    ensures code == OK ==> db.items[id].availableCopies == old(db.items)[id].availableCopies
    ensures code == OK ==> TotalCopies(db.items) <= MaxTotalCopies
  {
    if id !in db.items || !db.items[id].details.DvdDetails? {
      return NOT_FOUND;
    }
    var dvd := new Item.Load(id, db.items[id]);
    var sum := db.SumTotalCopies();
    if sum.value - dvd.totalCopies + totalCopies <= MaxTotalCopies {
      if Sub(dvd.totalCopies, dvd.availableCopies) <= totalCopies {
        SetDvdFields(dvd, title, director, duration, genre, releaseDate);
        dvd.SetTotalCopies(totalCopies);
        dvd.SetAvailableCopies(JavaInt.Add(dvd.availableCopies, Sub(totalCopies, dvd.totalCopies)));
        db.UpdateItem(id, dvd.Row());
        return OK;
      }
      return INVALID_TOTAL_COPIES;
    }
    return MAX_ITEMS_REACHED;
  }

  /**
   * `edit` as evidently intended: the delta is taken before the new total
   * is stored, so the copies on loan stay on loan and valid counts stay valid.
   */
  method EditKeepingLoans(db: Database, id: int, title: string, director: string, duration: string,
                          genre: string, releaseDate: Option<Date>, totalCopies: Int32)
    returns (code: Code)
    requires db.Valid()
    modifies db
    ensures db.Valid()
    ensures code == EditOutcome(old(db.items), id, "DVD", totalCopies)
    ensures code != OK ==> unchanged(db)
    ensures code == OK ==>
              var row := old(db.items)[id];
              && db.items == old(db.items)[id := ResizedKeepingLoans(EditedDvd(row, title, director, duration,
                                                                               genre, releaseDate), totalCopies)]
              && unchanged(db`users, db`reservations, db`nextItemId, db`nextReservationId)
    ensures code == OK ==> TotalCopies(db.items) <= MaxTotalCopies
    ensures AllCopiesValid(old(db.items)) ==> AllCopiesValid(db.items)
  {
    if id !in db.items || !db.items[id].details.DvdDetails? {
      return NOT_FOUND;
    }
    var dvd := new Item.Load(id, db.items[id]);
    var sum := db.SumTotalCopies();
    if sum.value - dvd.totalCopies + totalCopies <= MaxTotalCopies {
      if Sub(dvd.totalCopies, dvd.availableCopies) <= totalCopies {
        var delta := Sub(totalCopies, dvd.totalCopies);
        ghost var edited := EditedDvd(dvd.Row(), title, director, duration, genre, releaseDate);
        SetDvdFields(dvd, title, director, duration, genre, releaseDate);
        dvd.SetTotalCopies(totalCopies);
        dvd.SetAvailableCopies(JavaInt.Add(dvd.availableCopies, delta));
        assert dvd.Row() == ResizedKeepingLoans(edited, totalCopies);
        AllCopiesValidAfterSave(db.items, id, dvd.Row());
        db.UpdateItem(id, dvd.Row());
        return OK;
      }
      return INVALID_TOTAL_COPIES;
    }
    return MAX_ITEMS_REACHED;
  }

  /**
   * The discrepancy of `Edit`, on concrete input: a 4-copy DVD with no copy
   * on loan, edited down to 1 copy, is accepted and still shows 4 copies
   * available.
   */
  method EditShrinksBelowAvailable() returns (code: Code, row: ItemRow)
    ensures code == OK
    ensures row.totalCopies == 1 && row.availableCopies == 4
    ensures !row.CopiesValid()
  {
    var db := new Database.Empty();
    var added := Add(db, "Title", "Director", "120", "drama", None, 4);
    assert added == OK;
    assert db.items.Keys == {1};
    SumOverRemove(db.items, {1}, 1);
    assert {1} - {1} == {};
    code := Edit(db, 1, "Title", "Director", "120", "drama", None, 1);
    row := db.items[1];
  }
}
