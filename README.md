# LibManager-Server: the loan engine and the capacity rules

LibManager-Server is the back end of a small library: members borrow
books and DVDs, and administrators maintain the catalog and the roster of
members. This project models the part that holds state and rules:

- the **loan engine**: the eligibility rules that decide whether a member
  may borrow one more item of a category, a loan (`add`), a return
  (`delete`), and the reservation search;
- the **item entity** with its guarded copy counter;
- the **catalog and roster services** with their caps: 100,000 copies in
  the whole catalog, 2,000 members, and, when an item is resized, the
  copies on loan;
- the **search filters** of reservations, books, DVDs and users.

The repository carries two snapshots of most services, a newer `impl`
package and an older one. Both are modelled. Where the two texts agree,
the older module delegates to the newer one. The older reservation
service's eligibility check differs and is modelled on its own.

State and semantics:

- The three tables are the maps of the class `Repository.Database`:
  users by username, items by id, reservations by id. Each table with
  generated ids has its own identity counter. `Database.Valid()` is the
  invariant every operation preserves:
  - users are stored under their own username;
  - ids are positive and below their counter;
  - every reservation's item exists.
- An item is a class (`Entity.Item`) while a service works on it. The
  table stores its `ItemRow` snapshot.
- Java `int` arithmetic on copy counts wraps around explicitly
  (`JavaInt`).
- `SUM(totalCopies)` is NULL on an empty table. The services count that
  as 0.
- Whole-year differences follow `LocalDate.until` in years: the dates
  are packed as `prolepticMonth * 32 + day`, and the difference is
  divided, truncating, first into months and then into years.
- SQL `LIKE` is a real matcher over `%` and `_`. For an argument with no
  wildcard, `LIKE '%x%'` is proved to be substring containment.
- The clock (`LocalDate.now()`) is the parameter `today`.
- Dates arrive already parsed: an absent date is `None`.

Where the code and its own comments differ, the model follows the code:

- The older `checkReservationLimits` ends in `return false`, so it
  refuses every admin, although its comment says admins may borrow as
  many items as they want. The newer one returns `true` for admins and
  for items of any other category.
- The comment on the edit guard speaks of "available copies", but the
  guard compares the new total with the copies on loan.
- The item's discriminator getter is not in `Item.java`. The model
  derives it from the Book or DVD variant.

## Model

| member | source | states |
|---|---|---|
| Entity.ItemType | src/main/java/org/libmanager/server/entity/Book.java:9 | the discriminator is "BOOK" exactly for the Book variant and "DVD" exactly for the DVD variant (DVD.java:9) |
| Entity.ItemRow.WithAvailableCopies | src/main/java/org/libmanager/server/entity/Item.java:103-107 | the count `v` is stored only when 0 <= v <= totalCopies, otherwise the old count stays; the status becomes (stored count != 0) even when `v` was refused; no other field changes; valid counts stay valid |
| Entity.Item.SetAvailableCopies | src/main/java/org/libmanager/server/entity/Item.java:103-107 | the entity's new state is the guarded update above; valid counts before the call stay valid after it |
| Entity.Item.SetTotalCopies | src/main/java/org/libmanager/server/entity/Item.java:113-115 | only totalCopies changes, with no check, so availableCopies and status keep their values |
| Entity.Item.Blank | src/main/java/org/libmanager/server/entity/Item.java:18-37 | a default-constructed item has status true and 0 total and 0 available copies |
| Entity.Item.constructor | src/main/java/org/libmanager/server/entity/Item.java:42-55 | demands totalCopies >= availableCopies and stores every argument as given, the status included (not recomputed) |
| JavaInt.Wrap | src/main/java/org/libmanager/server/service/impl/BookServiceImpl.java:76 | a Java `int` result: equal to the mathematical value when it is in range, and congruent to it modulo 2^32 in every case |
| Dates.YearsOnAnniversary | src/main/java/org/libmanager/server/service/impl/ReservationServiceImpl.java:134 | on the k-th anniversary of a date exactly k whole years have elapsed |
| Dates.YearsOnDayBeforeAnniversary | src/main/java/org/libmanager/server/service/impl/ReservationServiceImpl.java:136 | for a birthday not on the 1st of a month, on the day before the k-th anniversary only k - 1 whole years have elapsed |
| Dates.YearsBetweenMonotone | src/main/java/org/libmanager/server/service/impl/ReservationServiceImpl.java:134-136 | the whole-year difference from a fixed start never decreases as the end date moves later |
| Dates.YearsBelowBeforeAnniversary | src/main/java/org/libmanager/server/service/impl/ReservationServiceImpl.java:136 | on every date before the k-th anniversary, for any birthday including the 1st of a month, at most k - 1 whole years have elapsed |
| Dates.YearsReachedIffFromAnniversary | src/main/java/org/libmanager/server/service/impl/ReservationServiceImpl.java:136 | for k >= 1, at least k whole years have elapsed if and only if the date is not before the k-th anniversary |
| Dates.YearsBetweenNonNegative | src/main/java/org/libmanager/server/service/impl/ReservationServiceImpl.java:134 | the whole-year difference to a date that is not earlier is never negative |
| Repository.Database.SumTotalCopies | src/main/java/org/libmanager/server/repository/ItemRepository.java:9-10 | the aggregate query: NULL (None) exactly on an empty item table, otherwise the sum of totalCopies over all items |
| Repository.TotalCopiesAfterSave | src/main/java/org/libmanager/server/repository/ItemRepository.java:9-10 | saving a row changes the catalog sum by the new row's count minus the replaced row's count (0 for a new id) |
| Text.ToUpperAscii | src/main/java/org/libmanager/server/service/impl/BookServiceImpl.java:46 | `genre.toUpperCase()` on ASCII: the length is kept, each character is upper-cased on its own, and no lower-case letter is left |
| Text.ToUpperIdempotent | src/main/java/org/libmanager/server/service/impl/BookServiceImpl.java:80 | upper-casing an already stored genre changes nothing |
| SqlLike.SurroundedMatchIsContainment | src/main/java/org/libmanager/server/specification/ReservationSpecification.java:21 | for an argument without wildcards, `s LIKE '%x%'` holds exactly when x is a substring of s |
| SqlLike.LikeFilterMeaning | src/main/java/org/libmanager/server/specification/ReservationSpecification.java:17-22 | the shared filter shape: the sentinel "null" accepts every field; any other wildcard-free argument accepts exactly the fields that contain it |
| ReservationSpecification.IdEquals | src/main/java/org/libmanager/server/specification/ReservationSpecification.java:10-15 | id 0 accepts every reservation; any other id accepts only the reservation with that id |
| ReservationSpecification.UsernameLike | src/main/java/org/libmanager/server/specification/ReservationSpecification.java:17-22 | "null" accepts every reservation; otherwise the borrower's username must contain the argument |
| ReservationSpecification.TitleLike | src/main/java/org/libmanager/server/specification/ReservationSpecification.java:24-29 | "null" accepts every reservation; otherwise the reserved item's title must contain the argument |
| ReservationSpecification.DateEquals | src/main/java/org/libmanager/server/specification/ReservationSpecification.java:31-36 | an absent date accepts every reservation; a present one requires that exact reservation date |
| ReservationSpecification.TypeEquals | src/main/java/org/libmanager/server/specification/ReservationSpecification.java:38-43 | "null" accepts every reservation; "BOOK" and "DVD" accept exactly the loans of books and of DVDs; any other type accepts none |
| ReservationServiceImpl.CheckBookReservationLimits | src/main/java/org/libmanager/server/service/impl/ReservationServiceImpl.java:166-181 | allowed iff the books held are strictly below 4, 5 or 7 for an adult in the first, second or a later membership year, and below 5 for a child |
| ReservationServiceImpl.CheckDvdReservationLimits | src/main/java/org/libmanager/server/service/impl/ReservationServiceImpl.java:191-206 | allowed iff the DVDs held are strictly below 2, 3 or 5 for an adult by membership year; a child is always refused |
| ReservationServiceImpl.LimitsMonotone | src/main/java/org/libmanager/server/service/impl/ReservationServiceImpl.java:166-206 | both tables are downward-closed in the loans held and never shrink as the membership grows longer |
| ReservationServiceImpl.CountBorrowed | src/main/java/org/libmanager/server/service/impl/ReservationServiceImpl.java:137-151 | the counting loop: the result is the number of the member's stored reservations whose item is of the requested category; loans of the other category never count |
| ReservationServiceImpl.MayBorrow | src/main/java/org/libmanager/server/service/impl/ReservationServiceImpl.java:130-156 | an admin always passes; so does a non-admin asking for a category other than BOOK or DVD; otherwise the category's table decides, given whole-year membership and adulthood at 12 whole years |
| ReservationServiceImpl.AdultFromTwelfthBirthday | src/main/java/org/libmanager/server/service/impl/ReservationServiceImpl.java:135-136 | a member counts as an adult if and only if the date is not before their 12th birthday, so from that day on and not a day earlier |
| ReservationServiceImpl.ChildrenNeverBorrowDvds | src/main/java/org/libmanager/server/service/impl/ReservationServiceImpl.java:203-205 | a non-admin child is refused every DVD, whatever they hold |
| ReservationServiceImpl.CheckReservationLimits | src/main/java/org/libmanager/server/service/impl/ReservationServiceImpl.java:130-156 | the answer is `MayBorrow` applied to the member's stored loan count in the item's category |
| ReservationServiceImpl.Add | src/main/java/org/libmanager/server/service/impl/ReservationServiceImpl.java:37-62 | NOT_FOUND iff the member or the item is missing; then MAX_RESERVATIONS_REACHED iff not eligible (even with no copy left); then NOT_AVAILABLE iff no copy is free; otherwise OK. Only OK changes anything: one new reservation of that member and item, dated today, under the next id; the item saved after the guarded setter was asked for one copy fewer (exactly one fewer on valid counts); users and the item counter are untouched; valid counts and the catalog sum are preserved |
| ReservationServiceImpl.Delete | src/main/java/org/libmanager/server/service/impl/ReservationServiceImpl.java:67-81 | NOT_FOUND iff the id is unknown, and then nothing changes; OK removes exactly that reservation and saves its item after the guarded setter was asked for one copy more (exactly one more while below the total), so availableCopies never exceeds totalCopies; nothing else changes |
| ReservationServiceImpl.ReturnUndoesBorrow | src/main/java/org/libmanager/server/service/impl/ReservationServiceImpl.java:51-74 | on a consistent row with a free copy, the count update of a loan followed by that of a return gives the row back unchanged |
| ReservationServiceImpl.BorrowCountsOneMore | src/main/java/org/libmanager/server/service/impl/ReservationServiceImpl.java:46-55 | after a loan's two saves, the borrower's count in the item's category is one higher, and every other member's or category's count is unchanged |
| ReservationServiceImpl.ReturnCountsOneLess | src/main/java/org/libmanager/server/service/impl/ReservationServiceImpl.java:68-77 | after a return's delete and save, exactly that loan is off its borrower's count in its category; every other count is unchanged |
| ReservationServiceImpl.Search | src/main/java/org/libmanager/server/service/impl/ReservationServiceImpl.java:110-121 | the ids found are stored reservations; a non-zero id filter finds at most that id; a date filter finds only loans of that day |
| ReservationServiceImpl.SearchWithoutFilters | src/main/java/org/libmanager/server/service/impl/ReservationServiceImpl.java:117-118 | with every argument at its sentinel the search returns every reservation |
| ReservationServiceImpl.SearchByType | src/main/java/org/libmanager/server/service/impl/ReservationServiceImpl.java:115-118 | a "BOOK" or "DVD" type filter returns only loans of that category |
| ReservationServiceImpl.SearchMeaning | src/main/java/org/libmanager/server/service/impl/ReservationServiceImpl.java:110-121 | for wildcard-free text arguments, a reservation is found iff each of the five filters is at its sentinel or holds of it (id, username substring, title substring, date, type) |
| ReservationService.MayBorrow | src/main/java/org/libmanager/server/service/ReservationService.java:129-205 | the older check: every admin is refused; the Book or DVD variant picks the table (the same 4/5/7 and 5, and 2/3/5 and never, all strict) |
| ReservationService.SnapshotsDifferOnlyForAdmins | src/main/java/org/libmanager/server/service/ReservationService.java:129-155 | the two snapshots agree on every non-admin request and disagree on every admin request |
| ReservationService.CheckReservationLimits | src/main/java/org/libmanager/server/service/ReservationService.java:129-155 | the answer is the older `MayBorrow` applied to the member's stored loans of the item's variant |
| ReservationService.Add | src/main/java/org/libmanager/server/service/ReservationService.java:39-64 | the same outcome order and the same effect on OK as the newer `add`, under the older eligibility; no admin ever gets OK |
| ReservationService.Delete | src/main/java/org/libmanager/server/service/ReservationService.java:66-80 | NOT_FOUND and no change for an unknown id; otherwise the reservation is removed and its item is asked for one copy more |
| Catalog.ResavingSameCountIsAccepted | src/main/java/org/libmanager/server/service/impl/BookServiceImpl.java:74-76 | re-saving an item under its own count is accepted even with the catalog exactly at the cap, because the sum the guard reads includes the edited item |
| Catalog.AcceptedChangesStayWithinCap | src/main/java/org/libmanager/server/service/impl/BookServiceImpl.java:74 | an add or an edit that the guards accept leaves the catalog sum within 100,000 |
| Catalog.ResizedAsWritten | src/main/java/org/libmanager/server/service/impl/BookServiceImpl.java:83-84 | the count update of `edit` as written: the new total is stored, availableCopies keeps its old value, and only the status is recomputed |
| Catalog.ResizedKeepingLoans | src/main/java/org/libmanager/server/service/impl/BookServiceImpl.java:83-84 | the count update as intended: with valid counts and a total covering the loans, the copies on loan stay the same, available = new total - on loan, and the counts stay valid |
| Catalog.ResizedAsWrittenBreaksCounts | src/main/java/org/libmanager/server/service/impl/BookServiceImpl.java:83-84 | a valid item with 10 of 10 copies free, resized to 3, ends with more copies free than it owns |
| Catalog.ResizedKeepingLoansKeepsCounts | src/main/java/org/libmanager/server/service/impl/BookServiceImpl.java:83-84 | the intended update never breaks valid counts |
| BookServiceImpl.SetBookFields | src/main/java/org/libmanager/server/service/impl/BookServiceImpl.java:77-82 | the descriptive setters overwrite title, author, publisher, upper-cased genre, isbn and release date, and nothing else |
| BookServiceImpl.Add | src/main/java/org/libmanager/server/service/impl/BookServiceImpl.java:36-55 | OK iff the catalog sum (0 when empty) plus the new count is at most 100,000, else MAX_ITEMS_REACHED with no change; on OK exactly one new row under the next id, holding the given fields, the upper-cased genre and as many copies free as owned; the new sum is the old sum plus the count |
| BookServiceImpl.Edit | src/main/java/org/libmanager/server/service/impl/BookServiceImpl.java:69-93 | NOT_FOUND for an id that is not a book; then MAX_ITEMS_REACHED iff sum - old total + new total > 100,000; then INVALID_TOTAL_COPIES iff fewer copies than are on loan; each with no change. On OK all given fields are overwritten and availableCopies is unchanged, as written |
| BookServiceImpl.EditKeepingLoans | src/main/java/org/libmanager/server/service/impl/BookServiceImpl.java:69-93 | the same outcomes, with the delta taken before the new total is stored; valid counts stay valid |
| BookServiceImpl.EditShrinksBelowAvailable | src/main/java/org/libmanager/server/service/impl/BookServiceImpl.java:83-84 | on the service itself: a 10-copy book edited to 3 copies is accepted and shows 10 copies available |
| BookService.Add | src/main/java/org/libmanager/server/service/BookService.java:35-62 | the older `add`: the same cap and the same stored row |
| BookService.Edit | src/main/java/org/libmanager/server/service/BookService.java:76-109 | the older `edit`: the same outcome order, no change on failure, and availableCopies unchanged on OK |
| DvdServiceImpl.SetDvdFields | src/main/java/org/libmanager/server/service/impl/DVDServiceImpl.java:74-78 | the descriptive setters overwrite title, the director (stored as author), duration, upper-cased genre and release date, and nothing else |
| DvdServiceImpl.Add | src/main/java/org/libmanager/server/service/impl/DVDServiceImpl.java:35-53 | OK iff the catalog sum (0 when empty) plus the new count is at most 100,000, else MAX_ITEMS_REACHED with no change; on OK one new DVD row, the director in `author`, as many copies free as owned |
| DvdServiceImpl.Edit | src/main/java/org/libmanager/server/service/impl/DVDServiceImpl.java:66-89 | NOT_FOUND, then MAX_ITEMS_REACHED, then INVALID_TOTAL_COPIES, each with no change; on OK the fields are overwritten and availableCopies is unchanged, as written |
| DvdServiceImpl.EditKeepingLoans | src/main/java/org/libmanager/server/service/impl/DVDServiceImpl.java:66-89 | the same outcomes, with the delta taken before the new total is stored; valid counts stay valid |
| DvdServiceImpl.EditShrinksBelowAvailable | src/main/java/org/libmanager/server/service/impl/DVDServiceImpl.java:79-80 | on the service itself: a 4-copy DVD edited to 1 copy is accepted and shows 4 copies available |
| DvdService.Add | src/main/java/org/libmanager/server/service/DVDService.java:34-59 | the older `add`: the same cap and the same stored row |
| DvdService.Edit | src/main/java/org/libmanager/server/service/DVDService.java:72-103 | the older `edit`: the same outcome order, no change on failure, and availableCopies unchanged on OK |
| UserServiceImpl.NewUser | src/main/java/org/libmanager/server/entity/User.java:38-42 | a new user is registered today and is not an admin |
| UserServiceImpl.SaveGrowsByAtMostOne | src/main/java/org/libmanager/server/service/impl/UserServiceImpl.java:74-83 | saving under a username adds one entry when the username is new and none when it is taken |
| UserServiceImpl.Add | src/main/java/org/libmanager/server/service/impl/UserServiceImpl.java:65-87 | OK iff the member count + 1 is at most 2,000, else MAX_USERS_REACHED with no change; on OK the roster maps the username to a user with the given fields, registered today, not an admin; a taken username is overwritten, not refused; the cap is preserved |
| UserServiceImpl.Edit | src/main/java/org/libmanager/server/service/impl/UserServiceImpl.java:92-111 | false and no change for an unknown username; otherwise exactly firstName, lastName, email, address and birthday are overwritten, while username, password, registration date and admin flag are kept |
| UserServiceImpl.Delete | src/main/java/org/libmanager/server/service/impl/UserServiceImpl.java:116-123 | true iff the username is known; the user is removed whatever its admin flag; nothing else changes |
| UserService.Add | src/main/java/org/libmanager/server/service/UserService.java:82-103 | the older `add`: the same 2,000-member cap and the same overwrite |
| UserService.Edit | src/main/java/org/libmanager/server/service/UserService.java:115-133 | the older `edit`: false for an unknown username; only the five profile fields change |
| UserService.Delete | src/main/java/org/libmanager/server/service/UserService.java:140-147 | the older `delete`: false when absent, otherwise the user is removed with no admin check |
| BookSpecification.TitleLike | src/main/java/org/libmanager/server/specification/BookSpecification.java:10-15 | "null" accepts every book; otherwise the title must contain the argument |
| BookSpecification.AuthorLike | src/main/java/org/libmanager/server/specification/BookSpecification.java:17-22 | "null" accepts every book; otherwise the author must contain the argument |
| BookSpecification.PublisherLikeAsWritten | src/main/java/org/libmanager/server/specification/BookSpecification.java:24-29 | as written: "null" accepts every book; otherwise the **author** must contain the publisher argument |
| BookSpecification.IsbnLikeAsWritten | src/main/java/org/libmanager/server/specification/BookSpecification.java:31-36 | as written: "null" accepts every book; otherwise the **author** must contain the isbn argument |
| BookSpecification.PublisherLike | src/main/java/org/libmanager/server/specification/BookSpecification.java:24-29 | as intended: "null" accepts every book; otherwise the publisher must contain the argument |
| BookSpecification.IsbnLike | src/main/java/org/libmanager/server/specification/BookSpecification.java:31-36 | as intended: "null" accepts every book; otherwise the isbn must contain the argument |
| BookSpecification.GenreEquals | src/main/java/org/libmanager/server/specification/BookSpecification.java:38-43 | "null" accepts every book; otherwise exact equality with the stored genre |
| BookSpecification.ReleaseDateEquals | src/main/java/org/libmanager/server/specification/BookSpecification.java:45-50 | an absent date accepts every book; a present one requires that exact release date |
| BookSpecification.StatusEquals | src/main/java/org/libmanager/server/specification/BookSpecification.java:52-59 | "null" accepts every book; "0" selects the unavailable ones; any other value selects the available ones |
| BookSpecification.LowerCaseGenreSelectsNothing | src/main/java/org/libmanager/server/specification/BookSpecification.java:42 | under a case-sensitive collation, a genre filter with a lower-case letter finds no book whose genre the services stored, since they store it upper-cased |
| BookSpecification.PublisherFilterReadsAuthor | src/main/java/org/libmanager/server/specification/BookSpecification.java:28 | a book by "Camus" published by "Gallimard": the filter as written misses it for "Gallimard" and finds it for "Camus"; the intended filter does the opposite |
| DvdSpecification.TitleLike | src/main/java/org/libmanager/server/specification/DVDSpecification.java:10-15 | "null" accepts every DVD; otherwise the title must contain the argument |
| DvdSpecification.DirectorLike | src/main/java/org/libmanager/server/specification/DVDSpecification.java:17-22 | "null" accepts every DVD; otherwise the `author` column, where the director is stored, must contain the argument |
| DvdSpecification.GenreEquals | src/main/java/org/libmanager/server/specification/DVDSpecification.java:24-29 | "null" accepts every DVD; otherwise exact equality with the stored genre |
| DvdSpecification.ReleaseDateEquals | src/main/java/org/libmanager/server/specification/DVDSpecification.java:31-36 | an absent date accepts every DVD; a present one requires that exact release date |
| DvdSpecification.StatusEquals | src/main/java/org/libmanager/server/specification/DVDSpecification.java:38-45 | "null" accepts every DVD; "0" selects the unavailable ones; any other value selects the available ones |
| DvdSpecification.StatusFilterMeansAvailability | src/main/java/org/libmanager/server/specification/DVDSpecification.java:38-45 | on a row whose status agrees with its count, "0" selects exactly the DVDs with no copy free, and other values exactly the others |
| UserSpecification.UsernameLike | src/main/java/org/libmanager/server/specification/UserSpecification.java:10-15 | "null" accepts every user; otherwise the username must contain the argument |
| UserSpecification.FirstNameLike | src/main/java/org/libmanager/server/specification/UserSpecification.java:17-22 | "null" accepts every user; otherwise the first name must contain the argument |
| UserSpecification.LastNameLike | src/main/java/org/libmanager/server/specification/UserSpecification.java:24-29 | "null" accepts every user; otherwise the last name must contain the argument |
| UserSpecification.EmailLike | src/main/java/org/libmanager/server/specification/UserSpecification.java:31-36 | "null" accepts every user; otherwise the email must contain the argument |
| UserSpecification.AddressLike | src/main/java/org/libmanager/server/specification/UserSpecification.java:38-43 | "null" accepts every user; otherwise the address must contain the argument |
| UserSpecification.BirthdayEquals | src/main/java/org/libmanager/server/specification/UserSpecification.java:45-50 | an absent date accepts every user; a present one requires that exact birthday |
| UserSpecification.RegistrationDateEquals | src/main/java/org/libmanager/server/specification/UserSpecification.java:52-57 | an absent date accepts every user; a present one requires that exact registration date |
| UserSpecification.EachFilterReadsOneColumn | src/main/java/org/libmanager/server/specification/UserSpecification.java:10-57 | each filter's verdict depends only on its own column: two users that agree on it get the same verdict |

## Left out

- HTTP controllers, the token check in front of every operation, JWT handling (`TokenUtil`), password hashing and mail (`AccountService`): transport, cryptography and I/O.
- Date parsing (`DateUtil`): dates arrive parsed, and text the parser rejects arrives as `None`. A user's birthday is always a parsed date. Storing a user or an item with a missing date would fail the store's NOT NULL constraint, and that failure is not modelled.
- `genre.toUpperCase()` is modelled on ASCII letters only, with no locale or Unicode case mapping.
- The store's comparisons are modelled without collation. SQL `LIKE` and the equality filters on genre, status and dates are case-sensitive and exact. BookSpecification.LowerCaseGenreSelectsNothing holds only under such a case-sensitive collation.
- SQL `LIKE` is modelled with no escape character. A backslash is a literal character, so `\%` and `\_` are a backslash followed by a wildcard, whereas many SQL dialects treat the backslash as the default escape.
- `LocalDate.now()` is one parameter `today` per request. The membership and age checks and the reservation date all see the same day, so a request that runs across midnight is not modelled.
- `getAll`, `get` and `getByUser`: plain reads with no rule.
- `ItemService.delete`: a one-call repository delete that does not look at reservations.
- The `search` methods of the book, DVD and user services, and of the older reservation service, call specification constructors that are not part of this model. Their filter predicates are modelled.
- Database constraint failures: the foreign key that refuses to delete a user or an item that still has reservations, and the column-length limits.
- Concurrency and transactions: the model is sequential, so the race between checking and decrementing the copy count is out of scope.
- ReservationServiceImpl.Add: the member's in-memory reservation list is read as the reservations stored under their username. The code never appends to that list, so stored rows are the list's actual contents.
- Repository.Database.SumTotalCopies: the `long` sum never overflows at the sizes the cap allows, so sums are unbounded integers. Only the `int` operations on copy counts wrap around.
- Entity.Item.constructor: it requires total >= available, as the constructor's Java `assert` states. That assert is only checked when the JVM runs with assertions enabled.

## Findings

| source | as written | input that shows it | evidently intended | confidence | as-written member | corrected member |
|---|---|---|---|---|---|---|
| src/main/java/org/libmanager/server/service/impl/BookServiceImpl.java:83-84 | `setTotalCopies(totalCopies)` runs before `getAvailableCopies() + (totalCopies - getTotalCopies())`, so the delta is always 0 and availableCopies never moves (the older BookService.java:99-100 is the same) | a book with 10 copies, none on loan, edited to 3 copies: accepted, 10 copies available out of 3 | take the delta against the old total, so the copies on loan stay on loan and 0 <= available <= total is kept | not executed | BookServiceImpl.EditShrinksBelowAvailable | BookServiceImpl.EditKeepingLoans |
| src/main/java/org/libmanager/server/service/impl/DVDServiceImpl.java:79-80 | the same order of the two setters in DVD `edit` (the older DVDService.java:93-94 is the same) | a DVD with 4 copies, none on loan, edited to 1 copy: accepted, 4 copies available out of 1 | the same as for books | not executed | DvdServiceImpl.EditShrinksBelowAvailable | DvdServiceImpl.EditKeepingLoans |
| src/main/java/org/libmanager/server/service/impl/BookServiceImpl.java:83-84 | the count update of both `edit` methods, on its own | an item with 10 of 10 copies free, resized to 3 | available = new total - copies on loan | not executed | Catalog.ResizedAsWrittenBreaksCounts | Catalog.ResizedKeepingLoansKeepsCounts |
| src/main/java/org/libmanager/server/specification/BookSpecification.java:28 | `publisherLike` and `isbnLike` (line 35) match their argument against the `author` column | a book by "Camus" published by "Gallimard": publisher filter "Gallimard" misses it, "Camus" finds it | match the `publisher` and `isbn` columns | not executed | BookSpecification.PublisherFilterReadsAuthor | BookSpecification.PublisherLike |
