/// The user service (src/users/services/user.service.ts): lookups that turn a
/// missing user into NotFound, and create/update/remove with the email pre-checks
/// that keep emails unique.
module Identity {
  import opened Common
  import opened IdentityStore

  /** The fields `create` receives (a registration's fields). */
  datatype CreateUserDto = CreateUserDto(email: string, password: string, firstName: string, lastName: string)

  /** `findById(id)`: the password-free user, or NotFound. */
  function FindUserById(users: seq<User>, id: Id): (r: Result<PublicUser>)
    ensures r.Err? <==> !exists u :: u in users && u.id == id
    ensures r.Err? ==> r.failure == NotFound
    ensures r.Ok? ==> exists u :: u in users && u.id == id && r.value == Project(u)
  {
    match IdentityStore.FindById(users, id)
    case Some(u) => Ok(u)
    case None => Err(NotFound)
  }

  /** The email pre-check of `update` as written: JavaScript's `if (dto.email && ...)`
      treats an empty email like an absent one and skips the check. */
  predicate EmailConflictAsWritten(users: seq<User>, current: PublicUser, email: Option<string>) {
    email.Some? && email.value != [] && email.value != current.email && FindByEmail(users, email.value).Some?
  }

  /** The email pre-check of `update` as intended: any new email that differs from
      the current one and is already taken is a conflict. */
  predicate EmailConflict(users: seq<User>, current: PublicUser, email: Option<string>) {
    email.Some? && email.value != current.email && FindByEmail(users, email.value).Some?
  }

  /** As written, updating a user's email to the empty string passes the check even
      when another user already has the empty email, and the table ends up with two
      users sharing one email. The intended check reports the conflict. */
  lemma EmptyEmailEscapesCheck()
    ensures
      var users := [User(1, "", "h1", "Ann", "Lee", 1, 1), User(2, "bo@example.com", "h2", "Bo", "Kim", 2, 2)];
      var patch := UserPatch(Some(""), None, None);
      && UniqueIds(users) && UniqueEmails(users)
      && !EmailConflictAsWritten(users, Project(users[1]), patch.email)
      && !UniqueEmails(PatchById(users, 2, patch, 3))
      && EmailConflict(users, Project(users[1]), patch.email)
  {
    var users := [User(1, "", "h1", "Ann", "Lee", 1, 1), User(2, "bo@example.com", "h2", "Bo", "Kim", 2, 2)];
    var patch := UserPatch(Some(""), None, None);
    assert users[0] in users;
    var after := PatchById(users, 2, patch, 3);
    assert after[0].email == after[1].email == "";
  }

  /** An update that passes the intended check keeps emails unique. */
  lemma {:induction false} UpdateKeepsEmailsUnique(users: seq<User>, u: User, patch: UserPatch, time: nat)
    requires UniqueIds(users) && UniqueEmails(users) && u in users
    requires !EmailConflict(users, Project(u), patch.email)
    ensures UniqueEmails(PatchById(users, u.id, patch, time))
  {
    var r := PatchById(users, u.id, patch, time);
    forall i, j | 0 <= i < j < |r| ensures r[i].email != r[j].email {
      if users[i].id == u.id {
        SameIdSameUser(users, users[i], u);
        NewEmailNotTaken(users, u, patch, users[j]);
      } else if users[j].id == u.id {
        SameIdSameUser(users, users[j], u);
        NewEmailNotTaken(users, u, patch, users[i]);
      }
    }
  }

  lemma SameIdSameUser(users: seq<User>, v: User, u: User)
    requires UniqueIds(users) && v in users && u in users && v.id == u.id
    ensures v == u
  {
    var i :| 0 <= i < |users| && users[i] == v;
    var j :| 0 <= j < |users| && users[j] == u;
    assert !(i < j) && !(j < i);
  }

  /** A patched email that passes the intended check is not used by any other user. */
  lemma NewEmailNotTaken(users: seq<User>, u: User, patch: UserPatch, other: User)
    requires UniqueIds(users) && UniqueEmails(users) && u in users && other in users && other.id != u.id
    requires !EmailConflict(users, Project(u), patch.email)
    ensures ApplyPatch(u, patch, 0).email != other.email
  {
    var i :| 0 <= i < |users| && users[i] == u;
    var j :| 0 <= j < |users| && users[j] == other;
    assert i != j;
  }

  /** The stored row behind a password-free lookup result. */
  lemma StoredRow(users: seq<User>, id: Id, p: PublicUser) returns (u: User)
    requires FindUserById(users, id) == Ok(p)
    ensures u in users && u.id == id && p == Project(u)
  {
    u :| u in users && u.id == id && p == Project(u);
  }

  class UserService {
    const repository: UserRepository

    constructor (repository: UserRepository)
      requires repository.Valid() && UniqueEmails(repository.users)
      ensures this.repository == repository
      ensures Valid()
    {
      this.repository := repository;
    }

    /** The repository is consistent and no two users share an email. */
    ghost predicate Valid()
      reads this, repository
    {
      repository.Valid() && UniqueEmails(repository.users)
    }

    /** `create(dto)`: Conflict if the email is taken; otherwise one new user whose
        password column holds `hash(dto.password)`, never the plain password. */
    method Create(dto: CreateUserDto, hash: string -> string) returns (r: Result<User>)
      requires Valid()
      modifies repository
      ensures Valid()
      ensures r.Err? <==> old(FindByEmail(repository.users, dto.email)).Some?
      ensures r.Err? ==> r.failure == Conflict && repository.users == old(repository.users)
      ensures r.Ok? ==> repository.users == old(repository.users) + [r.value]
      ensures r.Ok? ==> r.value.email == dto.email && r.value.password == hash(dto.password)
      ensures r.Ok? ==> r.value.firstName == dto.firstName && r.value.lastName == dto.lastName
      ensures r.Ok? ==> r.value.createdAt == r.value.updatedAt == repository.clock > old(repository.clock)
      ensures r.Err? ==> repository.clock == old(repository.clock)
      ensures r.Ok? ==> FindByEmail(repository.users, dto.email) == Some(r.value)
    {
      if FindByEmail(repository.users, dto.email).Some? {
        return Err(Conflict);
      }
      var hashed := hash(dto.password);
      var user := repository.Create(UserData(dto.email, hashed, dto.firstName, dto.lastName));
      var users := repository.users;
      assert UniqueEmails(users) by {
        forall i, j | 0 <= i < j < |users| ensures users[i].email != users[j].email {
          if j == |users| - 1 {
            assert users[i] in old(repository.users);
          }
        }
      }
      LookupPathsAgree(users, user);
      r := Ok(user);
    }

    /** `update(id, dto)`: NotFound for an unknown id (before any email check);
        Conflict when the new email belongs to another user; otherwise the patched
        user without its password. */
    method Update(id: Id, dto: UserPatch) returns (r: Result<PublicUser>)
      requires Valid()
      modifies repository
      ensures Valid()
      ensures old(FindUserById(repository.users, id)).Err? ==> r == Err(NotFound)
      ensures old(FindUserById(repository.users, id)).Ok? ==>
        (r == Err(Conflict) <==> EmailConflict(old(repository.users), old(FindUserById(repository.users, id)).value, dto.email))
      ensures (old(FindUserById(repository.users, id)).Ok? &&
               !EmailConflict(old(repository.users), old(FindUserById(repository.users, id)).value, dto.email)) ==> r.Ok?
      ensures r.Err? ==> repository.users == old(repository.users)
      ensures r.Ok? ==> repository.users == PatchById(old(repository.users), id, dto, repository.clock)
      ensures r.Ok? ==> r == FindUserById(repository.users, id)
    {
      var user := FindUserById(repository.users, id);
      if user.Err? {
        return Err(NotFound);
      }
      if EmailConflict(repository.users, user.value, dto.email) {
        return Err(Conflict);
      }
      ghost var before := repository.users;
      ghost var u := StoredRow(before, id, user.value);
      UpdateKeepsEmailsUnique(before, u, dto, repository.clock + 1);
      var updated := repository.Update(id, dto);
      assert repository.users == PatchById(before, id, dto, repository.clock);
      r := if updated.Some? then Ok(updated.value) else Err(NotFound);
    }

    /** `remove(id)`: NotFound exactly when the repository deleted nothing. */
    method Remove(id: Id) returns (r: Result<()>)
      requires Valid()
      modifies repository
      ensures Valid()
      ensures r.Err? <==> old(FindUserById(repository.users, id)).Err?
      ensures r.Err? ==> r.failure == NotFound
      ensures repository.users == Without(old(repository.users), id)
    {
      WithoutKeepsUniqueEmails(repository.users, id);
      var deleted := repository.Delete(id);
      r := if deleted then Ok(()) else Err(NotFound);
    }
  }
}
