/// The User entity and the user repository (src/users/repositories/user.repository.ts).
/// Lookups for display (`findAll`, `findById`) select every column except the
/// password; the lookup by email, which feeds the credential check, returns the
/// whole record.
module IdentityStore {
  import opened Common

  /** A row of the `users` table. */
  datatype User = User(id: Id, email: string, password: string, firstName: string, lastName: string,
                       createdAt: nat, updatedAt: nat)

  /** The columns `findAll` and `findById` select: every column but `password`. */
  datatype PublicUser = PublicUser(id: Id, email: string, firstName: string, lastName: string,
                                   createdAt: nat, updatedAt: nat)

  /** The fields handed to `create`. */
  datatype UserData = UserData(email: string, password: string, firstName: string, lastName: string)

  /** The fields handed to `update`; an absent field keeps its stored value. */
  datatype UserPatch = UserPatch(email: Option<string>, firstName: Option<string>, lastName: Option<string>)

  /** The password-free selection of a row. */
  function Project(u: User): PublicUser {
    PublicUser(u.id, u.email, u.firstName, u.lastName, u.createdAt, u.updatedAt)
  }

  /** The projection keeps every column but the password: two rows project alike
      exactly when they differ at most in their password. */
  lemma ProjectionForgetsOnlyPassword(u: User, v: User)
    ensures Project(u) == Project(v) <==> u == v.(password := u.password)
  {
  }

  ghost predicate UniqueIds(users: seq<User>) {
    forall i, j :: 0 <= i < j < |users| ==> users[i].id != users[j].id
  }

  /** No two users share an email (kept by the user service, not by the repository). */
  ghost predicate UniqueEmails(users: seq<User>) {
    forall i, j :: 0 <= i < j < |users| ==> users[i].email != users[j].email
  }

  // ---------------------------------------------------------------------
  // Lookups

  function FindAll(users: seq<User>): (r: seq<PublicUser>)
    ensures |r| == |users|
    ensures forall i :: 0 <= i < |r| ==> r[i] == Project(users[i])
  {
    seq(|users|, i requires 0 <= i < |users| => Project(users[i]))
  }

  function FindById(users: seq<User>, id: Id): (r: Option<PublicUser>)
    ensures r.Some? <==> exists u :: u in users && u.id == id
    ensures r.Some? ==> exists u :: u in users && u.id == id && r.value == Project(u)
  {
    if users == [] then None
    else if users[0].id == id then Some(Project(users[0]))
    else FindById(users[1..], id)
  }

  function FindByEmail(users: seq<User>, email: string): (r: Option<User>)
    ensures r.Some? <==> exists u :: u in users && u.email == email
    ensures r.Some? ==> r.value in users && r.value.email == email
  {
    if users == [] then None
    else if users[0].email == email then Some(users[0])
    else FindByEmail(users[1..], email)
  }

  lemma UniqueTail(users: seq<User>)
    requires users != []
    ensures UniqueIds(users) ==> UniqueIds(users[1..])
    ensures UniqueEmails(users) ==> UniqueEmails(users[1..])
  {
    forall i, j | 0 <= i < j < |users[1..]|
      ensures users[1..][i] == users[i + 1] && users[1..][j] == users[j + 1]
    {
    }
  }

  /** For a stored user, the lookup by id and the lookup by email agree on the row:
      by email it comes whole, by id it comes without its password. */
  lemma LookupPathsAgree(users: seq<User>, u: User)
    requires UniqueIds(users) && UniqueEmails(users) && u in users
    ensures FindByEmail(users, u.email) == Some(u)
    ensures FindById(users, u.id) == Some(Project(u))
  {
    FindByEmailIsStoredRow(users, u);
    FindByIdIsStoredRow(users, u);
  }

  /** With unique emails, the lookup by email returns the stored row. */
  lemma {:induction false} FindByEmailIsStoredRow(users: seq<User>, u: User)
    requires UniqueEmails(users) && u in users
    ensures FindByEmail(users, u.email) == Some(u)
  {
    if users[0] != u {
      var j :| 0 <= j < |users| && users[j] == u;
      assert j != 0;
      assert users[0].email != u.email;
      assert users[1..][j - 1] == u;
      UniqueTail(users);
      FindByEmailIsStoredRow(users[1..], u);
    }
  }

  /** With unique keys, the lookup by id returns the stored row's projection. */
  lemma {:induction false} FindByIdIsStoredRow(users: seq<User>, u: User)
    requires UniqueIds(users) && u in users
    ensures FindById(users, u.id) == Some(Project(u))
  {
    if users[0] != u {
      var j :| 0 <= j < |users| && users[j] == u;
      assert j != 0;
      assert users[0].id != u.id;
      assert users[1..][j - 1] == u;
      UniqueTail(users);
      FindByIdIsStoredRow(users[1..], u);
    }
  }

  // ---------------------------------------------------------------------
  // Updates

  function ApplyPatch(u: User, p: UserPatch, time: nat): User {
    u.(email := if p.email.Some? then p.email.value else u.email,
       firstName := if p.firstName.Some? then p.firstName.value else u.firstName,
       lastName := if p.lastName.Some? then p.lastName.value else u.lastName,
       updatedAt := time)
  }

  /** `update(id, data)` on the table: the row with key `id` takes the patch. */
  function PatchById(users: seq<User>, id: Id, p: UserPatch, time: nat): (r: seq<User>)
    ensures |r| == |users|
    ensures forall i :: 0 <= i < |r| ==> r[i] == if users[i].id == id then ApplyPatch(users[i], p, time) else users[i]
  {
    seq(|users|, i requires 0 <= i < |users| => if users[i].id == id then ApplyPatch(users[i], p, time) else users[i])
  }

  /** After the patch, the lookup by the patched key finds the patched user,
      without its password. */
  lemma PatchedRowFound(users: seq<User>, id: Id, p: UserPatch, time: nat, u: User)
    requires UniqueIds(users) && u in users && u.id == id
    ensures FindById(PatchById(users, id, p, time), id) == Some(Project(ApplyPatch(u, p, time)))
  {
    var r := PatchById(users, id, p, time);
    var k :| 0 <= k < |users| && users[k] == u;
    assert r[k] == ApplyPatch(u, p, time);
    PatchKeepsKeys(users, r, id, p, time);
    FindByIdIsStoredRow(r, r[k]);
  }

  lemma PatchKeepsKeys(users: seq<User>, r: seq<User>, id: Id, p: UserPatch, time: nat)
    requires UniqueIds(users) && r == PatchById(users, id, p, time)
    ensures UniqueIds(r)
  {
    forall i, j | 0 <= i < j < |r| ensures r[i].id != r[j].id {
      assert r[i].id == users[i].id && r[j].id == users[j].id;
    }
  }

  lemma PatchKeepsBounds(users: seq<User>, r: seq<User>, id: Id, p: UserPatch, time: nat, nextId: Id)
    requires forall u :: u in users ==> u.id < nextId && u.createdAt <= u.updatedAt < time
    requires r == PatchById(users, id, p, time)
    ensures forall u :: u in r ==> u.id < nextId && u.createdAt <= u.updatedAt <= time
  {
    forall u | u in r ensures u.id < nextId && u.createdAt <= u.updatedAt <= time {
      var i :| 0 <= i < |r| && r[i] == u;
      assert users[i] in users;
    }
  }

  /** The table without the row of key `id`. */
  function Without(users: seq<User>, id: Id): (r: seq<User>)
    ensures forall u :: u in r <==> u in users && u.id != id
  {
    if users == [] then []
    else
      assert users == [users[0]] + users[1..];
      (if users[0].id == id then [] else [users[0]]) + Without(users[1..], id)
  }

  lemma {:induction false} WithoutKeepsUniqueIds(users: seq<User>, id: Id)
    requires UniqueIds(users)
    ensures UniqueIds(Without(users, id))
  {
    if users != [] {
      UniqueTail(users);
      WithoutKeepsUniqueIds(users[1..], id);
      var rest := Without(users[1..], id);
      if users[0].id != id {
        assert Without(users, id) == [users[0]] + rest;
        forall k | 0 <= k < |rest| ensures rest[k].id != users[0].id {
          assert rest[k] in users[1..];
          var j :| 1 <= j < |users| && users[j] == rest[k];
          assert users[0].id != users[j].id;
        }
      }
    }
  }

  lemma {:induction false} WithoutKeepsUniqueEmails(users: seq<User>, id: Id)
    requires UniqueEmails(users)
    ensures UniqueEmails(Without(users, id))
  {
    if users != [] {
      UniqueTail(users);
      WithoutKeepsUniqueEmails(users[1..], id);
      var rest := Without(users[1..], id);
      if users[0].id != id {
        assert Without(users, id) == [users[0]] + rest;
        forall k | 0 <= k < |rest| ensures rest[k].email != users[0].email {
          assert rest[k] in users[1..];
        }
      }
    }
  }

  class UserRepository {
    var users: seq<User>
    /** Logical clock standing for the creation and update timestamps. */
    var clock: nat
    /** Keys from `nextId` on are fresh. */
    var nextId: Id

    ghost predicate Valid()
      reads this
    {
      && UniqueIds(users)
      && forall u :: u in users ==> u.id < nextId && u.createdAt <= u.updatedAt <= clock
    }

    constructor ()
      ensures Valid() && users == []
    {
      users, clock, nextId := [], 0, 0;
    }

    /** `create` then `save`: one new row built from `data`, returned whole. */
    method Create(data: UserData) returns (r: User)
      requires Valid()
      modifies this
      ensures Valid()
      ensures r.email == data.email && r.password == data.password
      ensures r.firstName == data.firstName && r.lastName == data.lastName
      ensures forall u :: u in old(users) ==> u.id != r.id
      ensures r.createdAt == r.updatedAt == clock > old(clock)
      ensures users == old(users) + [r]
    {
      clock := clock + 1;
      r := User(nextId, data.email, data.password, data.firstName, data.lastName, clock, clock);
      nextId := nextId + 1;
      users := users + [r];
    }

    /** `update(id, data)` then `findById(id)`: the patched row, without its password. */
    method Update(id: Id, patch: UserPatch) returns (r: Option<PublicUser>)
      requires Valid()
      modifies this
      ensures Valid()
      ensures r.Some? <==> old(FindById(users, id)).Some?
      ensures r.None? ==> users == old(users) && clock == old(clock)
      ensures r.Some? ==> clock == old(clock) + 1 && users == PatchById(old(users), id, patch, clock)
      ensures r == FindById(users, id)
      ensures nextId == old(nextId)
    {
      if FindById(users, id).None? {
        return None;
      }
      ghost var u :| u in users && u.id == id;
      var before := users;
      clock := clock + 1;
      users := PatchById(before, id, patch, clock);
      PatchKeepsKeys(before, users, id, patch, clock);
      PatchKeepsBounds(before, users, id, patch, clock, nextId);
      PatchedRowFound(before, id, patch, clock, u);
      r := FindById(users, id);
    }

    /** `delete(id)`: reports whether a row was affected. */
    method Delete(id: Id) returns (deleted: bool)
      requires Valid()
      modifies this
      ensures Valid()
      ensures deleted <==> old(FindById(users, id)).Some?
      ensures users == Without(old(users), id)
      ensures FindById(users, id).None?
      ensures clock == old(clock) && nextId == old(nextId)
    {
      deleted := FindById(users, id).Some?;
      WithoutKeepsUniqueIds(users, id);
      users := Without(users, id);
    }
  }
}
