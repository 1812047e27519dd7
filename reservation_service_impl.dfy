/**
 * The loan engine: the eligibility rules (two threshold tables and the
 * count of a user's loans of one category), borrowing (`add`), returning
 * (`delete`) and the reservation search.
 *
 * `LocalDate.now()` is the parameter `today`; both of its uses in one
 * request see the same day.
 */
module ReservationServiceImpl {

  import opened JavaInt
  import opened Wrappers
  import opened Dates
  import opened Response
  import opened Entity
  import opened Repository
  import opened ReservationSpecification
  import opened SqlLike
  import Sets

  /** A user counts as an adult from 12 whole years of age on. */
  const AdultAge: int := 12

  // ----- The two threshold tables -----

  /** The number of books a user may already hold and still borrow one more is below this. */
  function BookLimit(membershipDuration: int, isAdult: bool): nat {
    if !isAdult then 5
    else if membershipDuration < 1 then 4
    else if membershipDuration < 2 then 5
    else 7
  }

  /** The same for DVDs; children may hold none. */
  function DvdLimit(membershipDuration: int, isAdult: bool): nat {
    if !isAdult then 0
    else if membershipDuration < 1 then 2
    else if membershipDuration < 2 then 3
    else 5
  }

  /** `checkBookReservationLimits`: may a user holding `nbBorrowed` books borrow another? */
  function CheckBookReservationLimits(membershipDuration: int, isAdult: bool, nbBorrowed: nat): (r: bool)
    ensures r <==> nbBorrowed < BookLimit(membershipDuration, isAdult)
  {
    if isAdult then
      if membershipDuration < 1 then nbBorrowed < 4
      else if membershipDuration < 2 then nbBorrowed < 5
      else nbBorrowed < 7
    else nbBorrowed < 5
  }

  /** `checkDVDReservationLimits`: may a user holding `nbBorrowed` DVDs borrow another? */
  function CheckDvdReservationLimits(membershipDuration: int, isAdult: bool, nbBorrowed: nat): (r: bool)
    ensures r <==> nbBorrowed < DvdLimit(membershipDuration, isAdult)
    ensures !isAdult ==> !r
  {
    if isAdult then
      if membershipDuration < 1 then nbBorrowed < 2
      else if membershipDuration < 2 then nbBorrowed < 3
      else nbBorrowed < 5
    else false
  }

  /**
   * Both tables are downward-closed in the number of loans held and never
   * shrink as the membership grows longer.
   */
  lemma LimitsMonotone(m1: int, m2: int, isAdult: bool, n1: nat, n2: nat)
    requires m1 <= m2 && n2 <= n1
    ensures CheckBookReservationLimits(m1, isAdult, n1) ==> CheckBookReservationLimits(m2, isAdult, n2)
    ensures CheckDvdReservationLimits(m1, isAdult, n1) ==> CheckDvdReservationLimits(m2, isAdult, n2)
  {
  }

  // ----- Counting a user's loans of one category -----

  /** The ids of the reservations made by `username` (the user's `reservations` collection). */
  ghost function ReservationsOf(reservations: map<int, Reservation>, username: string): set<int> {
    set id | id in reservations && reservations[id].username == username
  }

  /** Those of `ids` whose reserved item is of category `itemType`. */
  ghost function OfType(reservations: map<int, Reservation>, items: map<int, ItemRow>,
                        ids: set<int>, itemType: string): set<int> {
    set id | id in ids && id in reservations && reservations[id].itemId in items
                && ItemType(items[reservations[id].itemId].details) == itemType
  }

  /** The number of `username`'s loans of category `itemType`. */
  ghost function BorrowedCount(reservations: map<int, Reservation>, items: map<int, ItemRow>,
                               username: string, itemType: string): nat {
    |OfType(reservations, items, ReservationsOf(reservations, username), itemType)|
  }

  /** The counting loop over `user.getReservations()`. */
  method CountBorrowed(db: Database, username: string, itemType: string) returns (nbBorrowed: nat)
    requires db.Valid()
    ensures nbBorrowed == BorrowedCount(db.reservations, db.items, username, itemType)
  {
    var mine := set id | id in db.reservations && db.reservations[id].username == username;
    var todo := mine;
    nbBorrowed := 0;
    while todo != {}
      invariant todo <= mine
      invariant nbBorrowed == |OfType(db.reservations, db.items, mine - todo, itemType)|
      decreases todo
    {
      Sets.NonEmptyHasMember(todo);
      var id :| id in todo;
      ghost var counted := OfType(db.reservations, db.items, mine - todo, itemType);
      if ItemType(db.items[db.reservations[id].itemId].details) == itemType {
        assert OfType(db.reservations, db.items, mine - (todo - {id}), itemType) == counted + {id};
        nbBorrowed := nbBorrowed + 1;
      } else {
        assert OfType(db.reservations, db.items, mine - (todo - {id}), itemType) == counted;
      }
      todo := todo - {id};
    }
    assert mine - todo == mine == ReservationsOf(db.reservations, username);
  }

  // ----- Eligibility -----

  /** Whole years of membership on `today`. */
  function MembershipDuration(user: User, today: Date): int {
    YearsBetween(user.registrationDate, today)
  }

  /** At least `AdultAge` whole years old on `today`. */
  predicate IsAdult(user: User, today: Date) {
    YearsBetween(user.birthday, today) >= AdultAge
  }

  /** A user is an adult exactly from their twelfth birthday on, and not a day before. */
  lemma AdultFromTwelfthBirthday(user: User, today: Date)
    requires ValidDate(user.birthday) && ValidDate(today)
    ensures IsAdult(user, today) <==> !Before(today, Anniversary(user.birthday, 12))
  {
    YearsReachedIffFromAnniversary(user.birthday, today, 12);
  }

  /**
   * `checkReservationLimits`, given the user's number of loans of the
   * item's category: admins and items of any other category always pass.
   */
  function MayBorrow(user: User, itemType: string, nbBorrowed: nat, today: Date): (r: bool)
    ensures user.admin ==> r
    ensures itemType != "BOOK" && itemType != "DVD" ==> r
    ensures !user.admin && itemType == "BOOK" ==>
              (r <==> nbBorrowed < BookLimit(MembershipDuration(user, today), IsAdult(user, today)))
    ensures !user.admin && itemType == "DVD" ==>
              (r <==> nbBorrowed < DvdLimit(MembershipDuration(user, today), IsAdult(user, today)))
  {
    if !user.admin then
      var membershipDuration := MembershipDuration(user, today);
      var isAdult := IsAdult(user, today);
      if itemType == "BOOK" then CheckBookReservationLimits(membershipDuration, isAdult, nbBorrowed)
      else if itemType == "DVD" then CheckDvdReservationLimits(membershipDuration, isAdult, nbBorrowed)
      else true
    else true
  }

  /** A child who is not an admin can never borrow a DVD, whatever they hold. */
  lemma ChildrenNeverBorrowDvds(user: User, nbBorrowed: nat, today: Date)
    requires !user.admin && !IsAdult(user, today)
    ensures !MayBorrow(user, "DVD", nbBorrowed, today)
  {
  }

  /** Whether `username` may borrow `itemId` given the loans currently stored. */
  ghost predicate Eligible(users: map<string, User>, reservations: map<int, Reservation>,
                           items: map<int, ItemRow>, username: string, itemId: int, today: Date)
    requires username in users && itemId in items
  {
    var itemType := ItemType(items[itemId].details);
    MayBorrow(users[username], itemType, BorrowedCount(reservations, items, username, itemType), today)
  }

  /** `checkReservationLimits(user, item)`: the loans are counted only for a non-admin Book or DVD request. */
  method CheckReservationLimits(db: Database, user: User, item: ItemRow, today: Date) returns (ok: bool)
    requires db.Valid()
    ensures ok == MayBorrow(user, ItemType(item.details),
                            BorrowedCount(db.reservations, db.items, user.username, ItemType(item.details)), today)
  {
    if !user.admin {
      var membershipDuration := MembershipDuration(user, today);
      var isAdult := IsAdult(user, today);
      var itemType := ItemType(item.details);
      if itemType == "BOOK" {
        var nbBorrowed := CountBorrowed(db, user.username, "BOOK");
        return CheckBookReservationLimits(membershipDuration, isAdult, nbBorrowed);
      } else if itemType == "DVD" {
        var nbBorrowed := CountBorrowed(db, user.username, "DVD");
        return CheckDvdReservationLimits(membershipDuration, isAdult, nbBorrowed);
      }
    }
    return true;
  }

  // ----- Borrowing and returning -----

  /**
   * `add(username, itemId)`: NOT_FOUND, then MAX_RESERVATIONS_REACHED, then
   * NOT_AVAILABLE, then OK. Only OK changes anything: it stores one new
   * reservation dated today under the next identity value and saves the
   * item after the guarded setter was asked for one copy fewer.
   */
  method Add(db: Database, username: string, itemId: int, today: Date) returns (code: Code)
    requires db.Valid()
    modifies db
    ensures db.Valid()
    ensures code == NOT_FOUND <==> username !in old(db.users) || itemId !in old(db.items)
    ensures code == MAX_RESERVATIONS_REACHED <==>
              username in old(db.users) && itemId in old(db.items)
              && !Eligible(old(db.users), old(db.reservations), old(db.items), username, itemId, today)
    ensures code == NOT_AVAILABLE <==>
              username in old(db.users) && itemId in old(db.items)
              && Eligible(old(db.users), old(db.reservations), old(db.items), username, itemId, today)
              && old(db.items)[itemId].availableCopies <= 0
    ensures code == OK <==>
              username in old(db.users) && itemId in old(db.items)
              && Eligible(old(db.users), old(db.reservations), old(db.items), username, itemId, today)
              && old(db.items)[itemId].availableCopies > 0
    ensures code != OK ==> unchanged(db)
    ensures code == OK ==>
              var row := old(db.items)[itemId];
              && old(db.nextReservationId) !in old(db.reservations)
              && db.reservations == old(db.reservations)[old(db.nextReservationId) := Reservation(username, itemId, today)]
              && db.items == old(db.items)[itemId := row.WithAvailableCopies(row.availableCopies - 1)]
              && db.nextReservationId == old(db.nextReservationId) + 1
              && unchanged(db`users, db`nextItemId)
    ensures code == OK && old(db.items)[itemId].CopiesValid() ==>
              db.items[itemId].availableCopies == old(db.items)[itemId].availableCopies - 1
    ensures AllCopiesValid(old(db.items)) ==> AllCopiesValid(db.items)
    ensures TotalCopies(db.items) == TotalCopies(old(db.items))
  {
    if username !in db.users || itemId !in db.items {
      return NOT_FOUND;
    }
    var user := db.users[username];
    var item := new Item.Load(itemId, db.items[itemId]);
    var eligible := CheckReservationLimits(db, user, item.Row(), today);
    if !eligible {
      return MAX_RESERVATIONS_REACHED;
    }
    if item.availableCopies <= 0 {
      return NOT_AVAILABLE;
    }
    var reservation := Reservation(username, itemId, today);
    item.SetAvailableCopies(Sub(item.availableCopies, 1));
    AllCopiesValidAfterSave(db.items, itemId, item.Row());
    var reservationId := db.InsertReservation(reservation);
    db.UpdateItem(itemId, item.Row());
    return OK;
  }

  /**
   * `delete(id)`: NOT_FOUND leaves everything as it was; OK removes the
   * reservation and saves its item after the guarded setter was asked for
   * one copy more (in Java `int` arithmetic).
   */
  method Delete(db: Database, id: int) returns (code: Code)
    requires db.Valid()
    modifies db
    ensures db.Valid()
    ensures code == OK <==> id in old(db.reservations)
    ensures code == NOT_FOUND <==> id !in old(db.reservations)
    ensures code == NOT_FOUND ==> unchanged(db)
    ensures code == OK ==>
              var itemId := old(db.reservations)[id].itemId;
              var row := old(db.items)[itemId];
              && db.reservations == old(db.reservations) - {id}
              && db.items == old(db.items)[itemId := row.WithAvailableCopies(JavaInt.Add(row.availableCopies, 1))]
              && unchanged(db`users, db`nextItemId, db`nextReservationId)
    ensures code == OK ==>
              var itemId := old(db.reservations)[id].itemId;
              var row := old(db.items)[itemId];
              row.CopiesValid() && row.availableCopies < row.totalCopies ==>
                db.items[itemId].availableCopies == row.availableCopies + 1
    ensures AllCopiesValid(old(db.items)) ==> AllCopiesValid(db.items)
    ensures TotalCopies(db.items) == TotalCopies(old(db.items))
  {
    if id !in db.reservations {
      return NOT_FOUND;
    }
    var reservation := db.reservations[id];
    var item := new Item.Load(reservation.itemId, db.items[reservation.itemId]);
    item.SetAvailableCopies(JavaInt.Add(item.availableCopies, 1));
    AllCopiesValidAfterSave(db.items, reservation.itemId, item.Row());
    db.DeleteReservation(id);
    db.UpdateItem(reservation.itemId, item.Row());
    return OK;
  }

  /**
   * Returning a copy undoes borrowing it: on a row whose counts are valid,
   * whose status matches its count and which has a copy free, the setter
   * calls of `add` and then `delete` give the row back unchanged.
   */
  lemma ReturnUndoesBorrow(row: ItemRow)
    requires row.CopiesValid() && row.availableCopies > 0
    requires row.status == (row.availableCopies != 0)
    ensures row.WithAvailableCopies(row.availableCopies - 1)
               .WithAvailableCopies(row.availableCopies) == row
  {
  }

  /**
   * A successful borrow adds exactly one loan to the borrower's count in the
   * item's category and leaves every other user's and category's count as
   * it was: saving the item keeps its variant.
   */
  lemma {:induction false} BorrowCountsOneMore(reservations: map<int, Reservation>, items: map<int, ItemRow>,
                                               rid: int, r: Reservation, row: ItemRow,
                                               username: string, itemType: string)
    requires rid !in reservations && r.itemId in items && row.details == items[r.itemId].details
    requires forall id :: id in reservations ==> reservations[id].itemId in items
    ensures BorrowedCount(reservations[rid := r], items[r.itemId := row], username, itemType)
            == BorrowedCount(reservations, items, username, itemType)
               + (if r.username == username && ItemType(row.details) == itemType then 1 else 0)
  {
    var res2, items2 := reservations[rid := r], items[r.itemId := row];
    var before := OfType(reservations, items, ReservationsOf(reservations, username), itemType);
    var after := OfType(res2, items2, ReservationsOf(res2, username), itemType);
    var added := if r.username == username && ItemType(row.details) == itemType then {rid} else {};
    forall id ensures id in after <==> id in before + added {
      if id in reservations {
        assert res2[id] == reservations[id];
        assert items2[reservations[id].itemId].details == items[reservations[id].itemId].details;
      }
    }
    assert after == before + added;
    assert rid !in before;
  }

  /** A successful return takes exactly that loan off its borrower's count in the item's category. */
  lemma {:induction false} ReturnCountsOneLess(reservations: map<int, Reservation>, items: map<int, ItemRow>,
                                               rid: int, row: ItemRow, username: string, itemType: string)
    requires rid in reservations && reservations[rid].itemId in items
    requires row.details == items[reservations[rid].itemId].details
    requires forall id :: id in reservations ==> reservations[id].itemId in items
    ensures var r := reservations[rid];
            BorrowedCount(reservations - {rid}, items[r.itemId := row], username, itemType) +
            (if r.username == username && ItemType(row.details) == itemType then 1 else 0)
            == BorrowedCount(reservations, items, username, itemType)
  {
    var r := reservations[rid];
    var res2, items2 := reservations - {rid}, items[r.itemId := row];
    var before := OfType(reservations, items, ReservationsOf(reservations, username), itemType);
    var after := OfType(res2, items2, ReservationsOf(res2, username), itemType);
    var removed := if r.username == username && ItemType(row.details) == itemType then {rid} else {};
    forall id ensures id in before <==> id in after + removed {
      if id in res2 {
        assert res2[id] == reservations[id];
        assert items2[reservations[id].itemId].details == items[reservations[id].itemId].details;
      }
    }
    assert before == after + removed;
    assert rid !in after;
  }

  // ----- Search -----

  /** All five filters of `search` accept reservation `id`, whose item is `item`. */
  predicate Matches(id: int, r: Reservation, item: ItemRow, idFilter: int, username: string,
                    title: string, itemType: string, reservationDate: Option<Date>) {
    && IdEquals(idFilter, id)
    && UsernameLike(username, r)
    && TitleLike(title, item)
    && DateEquals(reservationDate, r)
    && TypeEquals(itemType, item)
  }

  /** `search`: the ids of the stored reservations that every filter accepts. */
  function Search(reservations: map<int, Reservation>, items: map<int, ItemRow>, idFilter: int,
                  username: string, title: string, itemType: string, reservationDate: Option<Date>)
    : (found: set<int>)
    ensures found <= reservations.Keys
    ensures idFilter != 0 ==> found <= {idFilter}
    ensures forall id :: id in found ==> reservations[id].itemId in items
    ensures reservationDate != None ==>
              forall id :: id in found ==> reservations[id].reservationDate == reservationDate.value
  {
    set id | id in reservations && reservations[id].itemId in items
               && Matches(id, reservations[id], items[reservations[id].itemId],
                          idFilter, username, title, itemType, reservationDate)
  }

  /** With every filter at its sentinel, the search returns every reservation. */
  lemma SearchWithoutFilters(db: Database)
    requires db.Valid()
    ensures Search(db.reservations, db.items, 0, "null", "null", "null", None) == db.reservations.Keys
  {
    forall id | id in db.reservations
      ensures id in Search(db.reservations, db.items, 0, "null", "null", "null", None)
    {
      var r := db.reservations[id];
      assert r.itemId in db.items;
      assert Matches(id, r, db.items[r.itemId], 0, "null", "null", "null", None);
    }
  }

  /** A type filter of "BOOK" or "DVD" returns only loans of that category. */
  lemma SearchByType(reservations: map<int, Reservation>, items: map<int, ItemRow>, idFilter: int,
                     username: string, title: string, itemType: string, reservationDate: Option<Date>)
    requires itemType == "BOOK" || itemType == "DVD"
    ensures forall id :: id in Search(reservations, items, idFilter, username, title, itemType, reservationDate)
              ==> ItemType(items[reservations[id].itemId].details) == itemType
  {
  }

  /**
   * What `search` selects, filter by filter, when the two text arguments
   * hold no `LIKE` wildcard: a stored reservation is found exactly when each
   * argument is its sentinel or holds of that reservation.
   */
  lemma SearchMeaning(db: Database, id: int, idFilter: int, username: string, title: string,
                      itemType: string, reservationDate: Option<Date>)
    requires db.Valid()
    requires NoWildcards(username) && NoWildcards(title)
    ensures id in Search(db.reservations, db.items, idFilter, username, title, itemType, reservationDate)
            <==> id in db.reservations &&
                 var r := db.reservations[id];
                 var item := db.items[r.itemId];
                 && (idFilter == 0 || id == idFilter)
                 && (username == "null" || Contains(r.username, username))
                 && (title == "null" || Contains(item.title, title))
                 && (reservationDate == None || r.reservationDate == reservationDate.value)
                 && (itemType == "null" || ItemType(item.details) == itemType)
  {
  }
}
