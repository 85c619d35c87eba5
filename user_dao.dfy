/** The list-backed user store of the server module: users in insertion order, a counter
    that supplies the next id and advances only when a create succeeds, and unique emails. */
module UserDao {
  import opened Common
  import opened Store

  /** A partial update of a user: a null or empty name or email keeps the stored value;
      the id is the stored one. */
  function MergeUser(stored: User, name: Option<string>, email: Option<string>): (r: User)
    ensures r.id == stored.id
    ensures Blank(name) ==> r.name == stored.name
    ensures !Blank(name) ==> r.name == name
    ensures r.email == KeepUnlessBlank(email, stored.email)
  {
    User(stored.id, if Blank(name) then stored.name else name, KeepUnlessBlank(email, stored.email))
  }

  /** Some stored user has email `e`. */
  ghost predicate EmailTaken(users: seq<User>, e: string)
  {
    exists k :: 0 <= k < |users| && users[k].email == e
  }

  /** Some stored user other than `id` has email `e`. */
  ghost predicate EmailTakenByOther(users: seq<User>, e: string, id: int)
  {
    exists k :: 0 <= k < |users| && users[k].email == e && users[k].id != id
  }

  /** Some stored user has id `id`. */
  ghost predicate HasId(users: seq<User>, id: int)
  {
    exists k :: 0 <= k < |users| && users[k].id == id
  }

  /** `k` is the position of the first user with id `id`. */
  ghost predicate FirstWithId(users: seq<User>, id: int, k: int)
  {
    0 <= k < |users| && users[k].id == id && forall j :: 0 <= j < k ==> users[j].id != id
  }

  /** The verdict of `emailChecker`: a duplicate first, then a null or empty email, then an
      email without '@'. */
  ghost function EmailFault(users: seq<User>, email: Option<string>): (r: Option<Error>)
    ensures r == Some(DuplicateEmailException) <==> email.Some? && EmailTaken(users, email.value)
    ensures r == Some(EmailException) <==>
              !(email.Some? && EmailTaken(users, email.value))
              && (Blank(email) || !Contains(email.value, "@"))
    ensures r.None? <==>
              !(email.Some? && EmailTaken(users, email.value)) && !Blank(email)
              && Contains(email.value, "@")
  {
    if email.Some? && EmailTaken(users, email.value) then Some(DuplicateEmailException)
    else if Blank(email) then Some(EmailException)
    else if !Contains(email.value, "@") then Some(EmailException)
    else None
  }

  class InMemoryUserDao {
    var nextId: int
    var users: seq<User>

    /** Ids are positive, below the counter and distinct; emails are distinct. */
    ghost predicate Valid()
      reads this
    {
      && nextId >= 1
      && (forall k :: 0 <= k < |users| ==> 1 <= users[k].id < nextId)
      && (forall i, j :: 0 <= i < j < |users| ==> users[i].id != users[j].id)
      && (forall i, j :: 0 <= i < j < |users| ==> users[i].email != users[j].email)
    }

    constructor ()
      ensures Valid() && nextId == 1 && users == []
    {
      nextId := 1;
      users := [];
    }

    /** `emailChecker`: scans the stored users for the email, then checks its form. */
    method EmailChecker(email: Option<string>) returns (r: Option<Error>)
      ensures r == EmailFault(users, email)
    {
      if email.Some? {
        var i := 0;
        while i < |users|
          invariant 0 <= i <= |users|
          invariant forall k :: 0 <= k < i ==> users[k].email != email.value
        {
          if users[i].email == email.value {
            return Some(DuplicateEmailException);
          }
          i := i + 1;
        }
      }
      if Blank(email) {
        return Some(EmailException);
      }
      if !Contains(email.value, "@") {
        return Some(EmailException);
      }
      return None;
    }

    /** `createUser`: the user gets the counter's id; when the email passes, it is appended
        and the counter advances; otherwise the list and the counter stay as they were. */
    method CreateUser(name: Option<string>, email: Option<string>) returns (r: Result<User>)
      requires Valid()
      modifies this
      ensures Valid()
      ensures EmailFault(old(users), email).Some? ==>
                r == Err(EmailFault(old(users), email).value)
                && users == old(users) && nextId == old(nextId)
      ensures EmailFault(old(users), email).None? ==>
                && r == Ok(User(old(nextId), name, email.value))
                && users == old(users) + [r.value]
                && nextId == old(nextId) + 1
    {
      var id := nextId;
      var fault := EmailChecker(email);
      if fault.Some? {
        return Err(fault.value);
      }
      var user := User(id, name, email.value);
      users := users + [user];
      nextId := nextId + 1;
      r := Ok(user);
    }

    /** `updateUser`: an unknown id fails; a new email held by another user fails; otherwise
        the merged user replaces the stored one at its position. The format of a new email is
        not checked here. */
    method UpdateUser(id: int, name: Option<string>, email: Option<string>)
      returns (r: Result<User>)
      requires Valid()
      modifies this
      ensures Valid()
      ensures nextId == old(nextId)
      ensures !HasId(old(users), id) ==> r == Err(UserNotFoundException)
      ensures HasId(old(users), id) && !Blank(email) && EmailTakenByOther(old(users), email.value, id)
              ==> r == Err(DuplicateEmailException)
      ensures r.Ok? <==>
                HasId(old(users), id)
                && (Blank(email) || !EmailTakenByOther(old(users), email.value, id))
      ensures r.Err? ==> users == old(users)
      ensures r.Ok? ==>
                && (exists k :: 0 <= k < |old(users)| && old(users)[k].id == id
                                && r.value == MergeUser(old(users)[k], name, email))
                && |users| == |old(users)|
                && forall k :: 0 <= k < |users| ==>
                     users[k] == if old(users)[k].id == id then r.value else old(users)[k]
    {
      var index := -1;
      var i := 0;
      while i < |users|
        invariant 0 <= i <= |users|
        invariant index == -1
        invariant forall k :: 0 <= k < i ==> users[k].id != id
      {
        if users[i].id == id {
          index := i;
          break;
        }
        i := i + 1;
      }
      if index == -1 {
        return Err(UserNotFoundException);
      }
      if !Blank(email) {
        var j := 0;
        while j < |users|
          invariant 0 <= j <= |users|
          invariant forall k :: 0 <= k < j ==> !(users[k].email == email.value && users[k].id != id)
        {
          if users[j].email == email.value && users[j].id != id {
            return Err(DuplicateEmailException);
          }
          j := j + 1;
        }
      }
      var user := MergeUser(users[index], name, email);
      users := users[index := user];
      r := Ok(user);
    }

    /** `deleteUser`: removes the first user with the id, keeping the others in order; an
        absent id fails. */
    method DeleteUser(id: int) returns (r: Option<Error>)
      requires Valid()
      modifies this
      ensures Valid()
      ensures nextId == old(nextId)
      ensures r.Some? <==> !HasId(old(users), id)
      ensures r.Some? ==> r.value == UserNotFoundException && users == old(users)
      ensures r.None? ==>
                exists k :: FirstWithId(old(users), id, k)
                            && users == old(users)[..k] + old(users)[k + 1..]
    {
      var i := 0;
      while i < |users|
        invariant 0 <= i <= |users|
        invariant forall k :: 0 <= k < i ==> users[k].id != id
      {
        if users[i].id == id {
          ghost var before := users;
          users := users[..i] + users[i + 1..];
          assert FirstWithId(before, id, i);
          assert forall k :: 0 <= k < |users| ==> users[k] == if k < i then before[k] else before[k + 1];
          return None;
        }
        i := i + 1;
      }
      return Some(UserNotFoundException);
    }

    /** `getUserById`: the first user with the id, or UserNotFoundException. */
    method GetUserById(id: int) returns (r: Result<User>)
      ensures r.Err? <==> !HasId(users, id)
      ensures r.Err? ==> r.error == UserNotFoundException
      ensures r.Ok? ==> exists k :: FirstWithId(users, id, k) && r.value == users[k]
    {
      var i := 0;
      while i < |users|
        invariant 0 <= i <= |users|
        invariant forall k :: 0 <= k < i ==> users[k].id != id
      {
        if users[i].id == id {
          assert FirstWithId(users, id, i);
          return Ok(users[i]);
        }
        i := i + 1;
      }
      return Err(UserNotFoundException);
    }
  }
}
