/**
 * The older reservation service. Borrowing and returning are the same
 * transitions as in `ReservationServiceImpl`, and its two threshold tables
 * are textually the same, but its eligibility check decides the category by
 * the item's Book/DVD variant and ends in `return false`, so admins are
 * refused every loan.
 */
module ReservationService {

  import opened JavaInt
  import opened Dates
  import opened Response
  import opened Entity
  import opened Repository
  import Impl = ReservationServiceImpl

  /** The older `checkReservationLimits`, given the user's number of loans of the item's variant. */
  function MayBorrow(user: User, details: Details, nbBorrowed: nat, today: Date): (r: bool)
    ensures user.admin ==> !r
    ensures !user.admin && details.BookDetails? ==>
              (r <==> nbBorrowed < Impl.BookLimit(Impl.MembershipDuration(user, today), Impl.IsAdult(user, today)))
    ensures !user.admin && details.DvdDetails? ==>
              (r <==> nbBorrowed < Impl.DvdLimit(Impl.MembershipDuration(user, today), Impl.IsAdult(user, today)))
  {
    if !user.admin then
      var membershipDuration := Impl.MembershipDuration(user, today);
      var isAdult := Impl.IsAdult(user, today);
      match details
      case BookDetails(_, _) => Impl.CheckBookReservationLimits(membershipDuration, isAdult, nbBorrowed)
      case DvdDetails(_) => Impl.CheckDvdReservationLimits(membershipDuration, isAdult, nbBorrowed)
    else false
  }

  /**
   * The two snapshots agree on every non-admin request and disagree on every
   * admin request: the newer one grants it, the older one refuses it.
   */
  lemma SnapshotsDifferOnlyForAdmins(user: User, details: Details, nbBorrowed: nat, today: Date)
    ensures !user.admin ==> (MayBorrow(user, details, nbBorrowed, today)
                             <==> Impl.MayBorrow(user, ItemType(details), nbBorrowed, today))
    ensures user.admin ==> !MayBorrow(user, details, nbBorrowed, today)
                           && Impl.MayBorrow(user, ItemType(details), nbBorrowed, today)
  {
  }

  /** Whether `username` may borrow `itemId` under the older rules, given the loans stored. */
  ghost predicate Eligible(users: map<string, User>, reservations: map<int, Reservation>,
                           items: map<int, ItemRow>, username: string, itemId: int, today: Date)
    requires username in users && itemId in items
  {
    var details := items[itemId].details;
    MayBorrow(users[username], details,
              Impl.BorrowedCount(reservations, items, username, ItemType(details)), today)
  }

  /** The older `checkReservationLimits(user, item)`: loans of the same variant are counted. */
  method CheckReservationLimits(db: Database, user: User, item: ItemRow, today: Date) returns (ok: bool)
    requires db.Valid()
    ensures ok == MayBorrow(user, item.details,
                            Impl.BorrowedCount(db.reservations, db.items, user.username, ItemType(item.details)), today)
  {
    if !user.admin {
      var membershipDuration := Impl.MembershipDuration(user, today);
      var isAdult := Impl.IsAdult(user, today);
      if item.details.BookDetails? {
        var nbBorrowed := Impl.CountBorrowed(db, user.username, "BOOK");
        return Impl.CheckBookReservationLimits(membershipDuration, isAdult, nbBorrowed);
      } else if item.details.DvdDetails? {
        var nbBorrowed := Impl.CountBorrowed(db, user.username, "DVD");
        return Impl.CheckDvdReservationLimits(membershipDuration, isAdult, nbBorrowed);
      }
    }
    return false;
  }

  /**
   * The older `add`: the same outcome order and the same effect on OK as
   * the newer one, under the older eligibility rules; an admin gets
   * MAX_RESERVATIONS_REACHED for every existing item.
   */
  method Add(db: Database, username: string, itemId: int, today: Date) returns (code: Code)
    requires db.Valid()
    modifies db
    ensures db.Valid()
    ensures code == NOT_FOUND <==> username !in old(db.users) || itemId !in old(db.items)
    ensures code == MAX_RESERVATIONS_REACHED <==>
              username in old(db.users) && itemId in old(db.items)
              && !Eligible(old(db.users), old(db.reservations), old(db.items), username, itemId, today)
    ensures code == NOT_AVAILABLE <==>
              username in old(db.users) && itemId in old(db.items)
              && Eligible(old(db.users), old(db.reservations), old(db.items), username, itemId, today)
              && old(db.items)[itemId].availableCopies <= 0
    ensures code == OK <==>
              username in old(db.users) && itemId in old(db.items)
              && Eligible(old(db.users), old(db.reservations), old(db.items), username, itemId, today)
              && old(db.items)[itemId].availableCopies > 0
    ensures username in old(db.users) && old(db.users)[username].admin ==> code != OK
    ensures code != OK ==> unchanged(db)
    ensures code == OK ==>
              var row := old(db.items)[itemId];
              && old(db.nextReservationId) !in old(db.reservations)
              && db.reservations == old(db.reservations)[old(db.nextReservationId) := Reservation(username, itemId, today)]
              && db.items == old(db.items)[itemId := row.WithAvailableCopies(row.availableCopies - 1)]
              && db.nextReservationId == old(db.nextReservationId) + 1
              && unchanged(db`users, db`nextItemId)
    ensures code == OK && old(db.items)[itemId].CopiesValid() ==>
              db.items[itemId].availableCopies == old(db.items)[itemId].availableCopies - 1
    ensures AllCopiesValid(old(db.items)) ==> AllCopiesValid(db.items)
    ensures TotalCopies(db.items) == TotalCopies(old(db.items))
  {
    if username !in db.users || itemId !in db.items {
      return NOT_FOUND;
    }
    var user := db.users[username];
    var item := new Item.Load(itemId, db.items[itemId]);
    var eligible := CheckReservationLimits(db, user, item.Row(), today);
    if !eligible {
      return MAX_RESERVATIONS_REACHED;
    }
    if item.availableCopies <= 0 {
      return NOT_AVAILABLE;
    }
    var reservation := Reservation(username, itemId, today);
    item.SetAvailableCopies(Sub(item.availableCopies, 1));
    AllCopiesValidAfterSave(db.items, itemId, item.Row());
    var reservationId := db.InsertReservation(reservation);
    db.UpdateItem(itemId, item.Row());
    return OK;
  }

  /** The older `delete`, whose text is the newer one's: the same transition. */
  method Delete(db: Database, id: int) returns (code: Code)
    requires db.Valid()
    modifies db
    ensures db.Valid()
    ensures code == OK <==> id in old(db.reservations)
    ensures code == NOT_FOUND <==> id !in old(db.reservations)
    ensures code == NOT_FOUND ==> unchanged(db)
    ensures code == OK ==>
              var itemId := old(db.reservations)[id].itemId;
              var row := old(db.items)[itemId];
              && db.reservations == old(db.reservations) - {id}
              && db.items == old(db.items)[itemId := row.WithAvailableCopies(JavaInt.Add(row.availableCopies, 1))]
              && unchanged(db`users, db`nextItemId, db`nextReservationId)
    ensures AllCopiesValid(old(db.items)) ==> AllCopiesValid(db.items)
  {
    code := Impl.Delete(db, id);
  }
}
