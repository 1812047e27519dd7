/**
 * The older DVD service. Its `add` and `edit` are the setter sequences and
 * checks of `DvdServiceImpl` (the release date and the duration are set in
 * the other order, which leaves the same entity), so they are the same
 * transitions, the edit discrepancy included.
 */
module DvdService {

  import opened JavaInt
  import opened Wrappers
  import opened Dates
  import opened Response
  import opened Entity
  import opened Repository
  import opened Text
  import opened Catalog
  import Impl = DvdServiceImpl

  /** The older `add`: the cap on total copies and the stored row of the newer one. */
  method Add(db: Database, title: string, director: string, duration: string, genre: string,
             releaseDate: Option<Date>, totalCopies: Int32) returns (code: Code)
    requires db.Valid()
    modifies db
    ensures db.Valid()
    ensures code == AddOutcome(old(db.items), totalCopies)
    ensures code != OK ==> unchanged(db)
    ensures code == OK ==>
              && old(db.nextItemId) !in old(db.items)
              && db.items == old(db.items)[old(db.nextItemId) :=
                   ItemRow(totalCopies > 0, director, title, releaseDate, ToUpperAscii(genre), totalCopies,
                           if totalCopies >= 0 then totalCopies else 0, DvdDetails(duration))]
              && db.nextItemId == old(db.nextItemId) + 1
              && unchanged(db`users, db`reservations, db`nextReservationId)
    ensures code == OK ==> TotalCopies(db.items) == TotalCopies(old(db.items)) + totalCopies <= MaxTotalCopies
    ensures code == OK && totalCopies >= 0 ==> db.items[old(db.nextItemId)].availableCopies == totalCopies
    ensures AllCopiesValid(old(db.items)) && totalCopies >= 0 ==> AllCopiesValid(db.items)
  {
    code := Impl.Add(db, title, director, duration, genre, releaseDate, totalCopies);
  }

  /** The older `edit`: the same outcome order, and the same zero availability delta. */
  method Edit(db: Database, id: int, title: string, director: string, duration: string, genre: string,
              releaseDate: Option<Date>, totalCopies: Int32) returns (code: Code)
    requires db.Valid()
    modifies db
    ensures db.Valid()
    ensures code == EditOutcome(old(db.items), id, "DVD", totalCopies)
    ensures code != OK ==> unchanged(db)
    ensures code == OK ==>
              var row := old(db.items)[id];
              && db.items == old(db.items)[id := ResizedAsWritten(Impl.EditedDvd(row, title, director, duration,
                                                                                 genre, releaseDate),
                                                                  totalCopies)]
              && unchanged(db`users, db`reservations, db`nextItemId, db`nextReservationId)
    ensures code == OK ==> db.items[id].availableCopies == old(db.items)[id].availableCopies
    ensures code == OK ==> TotalCopies(db.items) <= MaxTotalCopies
  {
    code := Impl.Edit(db, id, title, director, duration, genre, releaseDate, totalCopies);
  }
}
