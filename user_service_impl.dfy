/**
 * The user roster: registration under the cap of 2,000 users, profile
 * edits and removal. Dates arrive already parsed and `today` stands for
 * `LocalDate.now()`, which initialises a new user's registration date.
 */
module UserServiceImpl {

  import opened Dates
  import opened Response
  import opened Entity
  import opened Repository

  /**
   * A user as `new User()` leaves it: registered today, not an admin, every
   * text field empty. Java leaves the birthday null; here `today` is only a
   * placeholder, which `Add` overwrites before the user is stored.
   */
  function NewUser(today: Date): (u: User)
    ensures u.registrationDate == today && !u.admin
  {
    User("", "", "", "", "", "", today, today, false)
  }

  /** Saving a user under a username adds at most one entry to the roster. */
  lemma {:induction false} SaveGrowsByAtMostOne(users: map<string, User>, name: string, user: User)
    ensures |users[name := user]| == if name in users then |users| else |users| + 1
  {
    if name in users {
      assert users[name := user].Keys == users.Keys;
    } else {
      assert users[name := user].Keys == users.Keys + {name};
    }
  }

  /**
   * `add`: OK exactly when one more user still fits under the cap; the
   * username is not checked, so saving an existing one replaces that user
   * (a fresh registration date, the admin flag cleared). Otherwise
   * MAX_USERS_REACHED and the roster is unchanged.
   */
  method Add(db: Database, username: string, firstName: string, lastName: string, address: string,
             email: string, birthday: Date, password: string, today: Date) returns (code: Code)
    requires db.Valid()
    modifies db`users
    ensures db.Valid()
    ensures code == (if |old(db.users)| + 1 <= MaxUsers then OK else MAX_USERS_REACHED)
    ensures code != OK ==> db.users == old(db.users)
    ensures code == OK ==>
              db.users == old(db.users)[username :=
                            User(username, email, password, firstName, lastName, address, birthday, today, false)]
    ensures |old(db.users)| <= MaxUsers ==> |db.users| <= MaxUsers
  {
    if |db.users| + 1 <= MaxUsers {
      var user := NewUser(today);
      user := user.(username := username);
      user := user.(password := password);
      user := user.(firstName := firstName);
      user := user.(lastName := lastName);
      user := user.(address := address);
      user := user.(email := email);
      user := user.(birthday := birthday);
      SaveGrowsByAtMostOne(db.users, username, user);
      db.users := db.users[username := user];
      return OK;
    }
    return MAX_USERS_REACHED;
  }

  /**
   * `edit`: false for an unknown username; otherwise exactly firstName,
   * lastName, email, address and birthday are overwritten, and the
   * username, password, registration date and admin flag are kept.
   */
  method Edit(db: Database, username: string, firstName: string, lastName: string, address: string,
              email: string, birthday: Date) returns (found: bool)
    requires db.Valid()
    modifies db`users
    ensures db.Valid()
    ensures found <==> username in old(db.users)
    ensures !found ==> db.users == old(db.users)
    ensures found ==>
              var before := old(db.users)[username];
              db.users == old(db.users)[username := before.(firstName := firstName, lastName := lastName,
                                                           email := email, address := address,
                                                           birthday := birthday)]
    ensures found ==>
              var before := old(db.users)[username];
              var after := db.users[username];
              && after.username == before.username && after.password == before.password
              && after.registrationDate == before.registrationDate && after.admin == before.admin
    ensures |db.users| == |old(db.users)|
  {
    if username !in db.users {
      return false;
    }
    var userToEdit := db.users[username];
    userToEdit := userToEdit.(firstName := firstName);
    userToEdit := userToEdit.(lastName := lastName);
    userToEdit := userToEdit.(email := email);
    userToEdit := userToEdit.(address := address);
    userToEdit := userToEdit.(birthday := birthday);
    SaveGrowsByAtMostOne(db.users, username, userToEdit);
    db.users := db.users[username := userToEdit];
    return true;
  }

  /**
   * `delete`: false for an unknown username; otherwise that user is removed,
   * whether an admin or not.
   */
  method Delete(db: Database, username: string) returns (found: bool)
    requires db.Valid()
    modifies db`users
    ensures db.Valid()
    ensures found <==> username in old(db.users)
    ensures db.users == old(db.users) - {username}
    ensures found ==> |db.users| == |old(db.users)| - 1
  {
    if username !in db.users {
      return false;
    }
    db.users := db.users - {username};
    return true;
  }
}
