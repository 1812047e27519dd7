/**
 * The five reservation search filters. Each is "no constraint" on its
 * sentinel (id 0, the string "null", an absent date) and otherwise an
 * equality or a `LIKE '%x%'` test on one field of the reservation or of
 * the reserved item.
 */
module ReservationSpecification {

  import opened Wrappers
  import opened Dates
  import opened Entity
  import opened SqlLike

  /** `idEquals`: id 0 accepts every reservation, any other id only itself. */
  function IdEquals(id: int, reservationId: int): (accepted: bool)
    ensures id == 0 ==> accepted
    ensures id != 0 ==> (accepted <==> reservationId == id)
  {
    id == 0 || reservationId == id
  }

  /** `usernameLike`: a `LIKE` filter on the username of the borrowing user. */
  function UsernameLike(username: string, r: Reservation): (accepted: bool)
    ensures username == "null" ==> accepted
    ensures username != "null" && NoWildcards(username) ==> (accepted <==> Contains(r.username, username))
  {
    LikeFilterMeaning(username, r.username);
    LikeFilter(username, r.username)
  }

  /** `titleLike`: a `LIKE` filter on the title of the reserved item. */
  function TitleLike(title: string, item: ItemRow): (accepted: bool)
    ensures title == "null" ==> accepted
    ensures title != "null" && NoWildcards(title) ==> (accepted <==> Contains(item.title, title))
  {
    LikeFilterMeaning(title, item.title);
    LikeFilter(title, item.title)
  }

  /** `dateEquals`: an absent date accepts everything, a present one only that reservation day. */
  function DateEquals(date: Option<Date>, r: Reservation): (accepted: bool)
    ensures date == None ==> accepted
    ensures date != None ==> (accepted <==> r.reservationDate == date.value)
  {
    match date
    case None => true
    case Some(d) => r.reservationDate == d
  }

  /** `typeEquals`: a filter on the reserved item's discriminator ("BOOK" or "DVD"). */
  function TypeEquals(itemType: string, item: ItemRow): (accepted: bool)
    ensures itemType == "null" ==> accepted
    ensures itemType == "BOOK" ==> (accepted <==> item.details.BookDetails?)
    ensures itemType == "DVD" ==> (accepted <==> item.details.DvdDetails?)
    ensures itemType != "null" && itemType != "BOOK" && itemType != "DVD" ==> !accepted
  {
    itemType == "null" || ItemType(item.details) == itemType
  }
}
