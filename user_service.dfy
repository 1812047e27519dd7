/**
 * The older user service. Its `add`, `edit` and `delete` are the text of
 * `UserServiceImpl`, so they are the same transitions on the roster.
 */
module UserService {

  import opened Dates
  import opened Response
  import opened Entity
  import opened Repository
  import Impl = UserServiceImpl

  /** The older `add`: the 2,000-user cap, and an existing username is overwritten. */
  method Add(db: Database, username: string, firstName: string, lastName: string, address: string,
             email: string, birthday: Date, password: string, today: Date) returns (code: Code)
    requires db.Valid()
    modifies db`users
    ensures db.Valid()
    ensures code == (if |old(db.users)| + 1 <= MaxUsers then OK else MAX_USERS_REACHED)
    ensures code != OK ==> db.users == old(db.users)
    ensures code == OK ==>
              db.users == old(db.users)[username :=
                            User(username, email, password, firstName, lastName, address, birthday, today, false)]
    ensures |old(db.users)| <= MaxUsers ==> |db.users| <= MaxUsers
  {
    code := Impl.Add(db, username, firstName, lastName, address, email, birthday, password, today);
  }

  /** The older `edit`: only firstName, lastName, email, address and birthday change. */
  method Edit(db: Database, username: string, firstName: string, lastName: string, address: string,
              email: string, birthday: Date) returns (found: bool)
    requires db.Valid()
    modifies db`users
    ensures db.Valid()
    ensures found <==> username in old(db.users)
    ensures !found ==> db.users == old(db.users)
    ensures found ==>
              var before := old(db.users)[username];
              db.users == old(db.users)[username := before.(firstName := firstName, lastName := lastName,
                                                           email := email, address := address,
                                                           birthday := birthday)]
    ensures |db.users| == |old(db.users)|
  {
    found := Impl.Edit(db, username, firstName, lastName, address, email, birthday);
  }

  /** The older `delete`: the user is removed whatever its admin flag. */
  method Delete(db: Database, username: string) returns (found: bool)
    requires db.Valid()
    modifies db`users
    ensures db.Valid()
    ensures found <==> username in old(db.users)
    ensures db.users == old(db.users) - {username}
  {
    found := Impl.Delete(db, username);
  }
}
