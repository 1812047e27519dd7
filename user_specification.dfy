/**
 * The seven user search filters: "no constraint" on the sentinel (the
 * string "null", an absent date), otherwise a `LIKE '%x%'` or an equality
 * test on the user column of the same name.
 */
module UserSpecification {

  import opened Wrappers
  import opened Dates
  import opened Entity
  import opened SqlLike

  /** `usernameLike`: a `LIKE` filter on the username. */
  function UsernameLike(username: string, user: User): (accepted: bool)
    ensures username == "null" ==> accepted
    ensures username != "null" && NoWildcards(username) ==> (accepted <==> Contains(user.username, username))
  {
    LikeFilterMeaning(username, user.username);
    LikeFilter(username, user.username)
  }

  /** `firstNameLike`: a `LIKE` filter on the first name. */
  function FirstNameLike(firstName: string, user: User): (accepted: bool)
    ensures firstName == "null" ==> accepted
    ensures firstName != "null" && NoWildcards(firstName) ==> (accepted <==> Contains(user.firstName, firstName))
  {
    LikeFilterMeaning(firstName, user.firstName);
    LikeFilter(firstName, user.firstName)
  }

  /** `lastNameLike`: a `LIKE` filter on the last name. */
  function LastNameLike(lastName: string, user: User): (accepted: bool)
    ensures lastName == "null" ==> accepted
    ensures lastName != "null" && NoWildcards(lastName) ==> (accepted <==> Contains(user.lastName, lastName))
  {
    LikeFilterMeaning(lastName, user.lastName);
    LikeFilter(lastName, user.lastName)
  }

  /** `emailLike`: a `LIKE` filter on the email address. */
  function EmailLike(email: string, user: User): (accepted: bool)
    ensures email == "null" ==> accepted
    ensures email != "null" && NoWildcards(email) ==> (accepted <==> Contains(user.email, email))
  {
    LikeFilterMeaning(email, user.email);
    LikeFilter(email, user.email)
  }

  /** `addressLike`: a `LIKE` filter on the postal address. */
  function AddressLike(address: string, user: User): (accepted: bool)
    ensures address == "null" ==> accepted
    ensures address != "null" && NoWildcards(address) ==> (accepted <==> Contains(user.address, address))
  {
    LikeFilterMeaning(address, user.address);
    LikeFilter(address, user.address)
  }

  /** `birthdayEquals`: an absent date accepts every user, a present one only that birthday. */
  function BirthdayEquals(birthday: Option<Date>, user: User): (accepted: bool)
    ensures birthday == None ==> accepted
    ensures birthday != None ==> (accepted <==> user.birthday == birthday.value)
  {
    match birthday
    case None => true
    case Some(d) => user.birthday == d
  }

  /** `registrationDateEquals`: an absent date accepts every user, a present one only that day. */
  function RegistrationDateEquals(registrationDate: Option<Date>, user: User): (accepted: bool)
    ensures registrationDate == None ==> accepted
    ensures registrationDate != None ==> (accepted <==> user.registrationDate == registrationDate.value)
  {
    match registrationDate
    case None => true
    case Some(d) => user.registrationDate == d
  }

  /**
   * Each filter reads one column: two users that agree on it get the same
   * verdict, whatever their other fields, the password and admin flag included.
   */
  lemma EachFilterReadsOneColumn(x: string, d: Option<Date>, u: User, v: User)
    ensures u.username == v.username ==> UsernameLike(x, u) == UsernameLike(x, v)
    ensures u.firstName == v.firstName ==> FirstNameLike(x, u) == FirstNameLike(x, v)
    ensures u.lastName == v.lastName ==> LastNameLike(x, u) == LastNameLike(x, v)
    ensures u.email == v.email ==> EmailLike(x, u) == EmailLike(x, v)
    ensures u.address == v.address ==> AddressLike(x, u) == AddressLike(x, v)
    ensures u.birthday == v.birthday ==> BirthdayEquals(d, u) == BirthdayEquals(d, v)
    ensures u.registrationDate == v.registrationDate ==> RegistrationDateEquals(d, u) == RegistrationDateEquals(d, v)
  {
  }
}
