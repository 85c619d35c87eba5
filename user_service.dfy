/** The user service of the server revision, over the shared database's user table. The
    unique-email and non-null-name constraints of the database schema are not part of it. */
module UserService {
  import opened Common
  import opened Store
  import opened UserDao

  /** `userEmailChecker`: a null or empty email, or one without '@', is rejected. */
  function UserEmailChecker(email: Option<string>): (r: Option<Error>)
    ensures r.None? <==> !Blank(email) && Contains(email.value, "@")
    ensures r.Some? ==> r.value == EmailException
  {
    if Blank(email) then Some(EmailException)
    else if !Contains(email.value, "@") then Some(EmailException)
    else None
  }

  /** `createUser`: the email is checked before anything is saved; the saved user gets the
      next generated id. */
  method CreateUser(db: Database, name: Option<string>, email: Option<string>)
    returns (r: Result<User>)
    requires db.Valid()
    modifies db
    ensures db.Valid()
    ensures db.items == old(db.items) && db.bookings == old(db.bookings)
    ensures db.comments == old(db.comments) && db.requests == old(db.requests)
    ensures UserEmailChecker(email).Some? ==>
              r == Err(EmailException)
              && db.users == old(db.users) && db.nextUserId == old(db.nextUserId)
    ensures UserEmailChecker(email).None? ==>
              && r == Ok(User(old(db.nextUserId), name, email.value))
              && old(db.nextUserId) !in old(db.users)
              && db.users == old(db.users)[r.value.id := r.value]
              && db.nextUserId == old(db.nextUserId) + 1
  {
    var fault := UserEmailChecker(email);
    if fault.Some? {
      return Err(fault.value);
    }
    var user := User(db.nextUserId, name, email.value);
    db.users := db.users[user.id := user];
    db.nextUserId := db.nextUserId + 1;
    r := Ok(user);
  }

  /** `updateUser`: an unknown id fails; otherwise the merged user is saved under its id. */
  method UpdateUser(db: Database, id: int, name: Option<string>, email: Option<string>)
    returns (r: Result<User>)
    requires db.Valid()
    modifies db
    ensures db.Valid()
    ensures db.nextUserId == old(db.nextUserId)
    ensures db.items == old(db.items) && db.bookings == old(db.bookings)
    ensures db.comments == old(db.comments) && db.requests == old(db.requests)
    ensures r.Err? <==> id !in old(db.users)
    ensures r.Err? ==> r.error == UserNotFoundException && db.users == old(db.users)
    ensures r.Ok? ==> r.value == MergeUser(old(db.users)[id], name, email)
                      && db.users == old(db.users)[id := r.value]
  {
    if id !in db.users {
      return Err(UserNotFoundException);
    }
    var user := MergeUser(db.users[id], name, email);
    db.users := db.users[id := user];
    r := Ok(user);
  }

  /** `deleteUser`: removes an existing user and fails for an unknown id. */
  method DeleteUser(db: Database, id: int) returns (r: Option<Error>)
    requires db.Valid()
    modifies db
    ensures db.Valid()
    ensures db.nextUserId == old(db.nextUserId)
    ensures db.items == old(db.items) && db.bookings == old(db.bookings)
    ensures db.comments == old(db.comments) && db.requests == old(db.requests)
    ensures r.Some? <==> id !in old(db.users)
    ensures r.Some? ==> r.value == UserNotFoundException && db.users == old(db.users)
    ensures r.None? ==> db.users == old(db.users) - {id}
  {
    if id !in db.users {
      return Some(UserNotFoundException);
    }
    db.users := db.users - {id};
    r := None;
  }

  /** `getUserById`: the stored user, or UserNotFoundException. */
  function GetUserById(users: map<int, User>, id: int): (r: Result<User>)
    ensures r.Ok? <==> id in users
    ensures r.Ok? ==> r.value == users[id]
    ensures r.Err? ==> r.error == UserNotFoundException
  {
    if id in users then Ok(users[id]) else Err(UserNotFoundException)
  }

  /** A user read back after an update carries the merged fields. */
  lemma UpdateThenGet(users: map<int, User>, id: int, name: Option<string>,
                      email: Option<string>)
    requires id in users
    ensures GetUserById(users[id := MergeUser(users[id], name, email)], id)
            == Ok(MergeUser(users[id], name, email))
  {
  }

  /** An update that names no field leaves the stored user as it was. */
  lemma EmptyUpdateKeepsUser(stored: User)
    ensures MergeUser(stored, None, None) == stored
  {
  }
}
