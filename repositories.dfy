/**
 * The JPA repositories behind the controllers, as maps from id to row. Each
 * class keeps the IDENTITY counter that hands out fresh ids on insert.
 */
module Repositories {
  import opened Wrappers
  import opened Entities

  /** The unique constraint on the users.email column. */
  ghost predicate EmailsUnique(users: map<UserId, User>) {
    forall a, b :: a in users && b in users && users[a].email == users[b].email ==> a == b
  }

  /** Every row is stored under its own id. */
  ghost predicate WellKeyed(users: map<UserId, User>) {
    forall id :: id in users ==> users[id].id == id
  }

  /** UserRepository.findByEmail: the row holding exactly that email, if any. */
  function FindByEmail(users: map<UserId, User>, email: string): (r: Option<User>)
    requires EmailsUnique(users)
    ensures r.Some? ==> r.value in users.Values && r.value.email == email
    ensures r.None? <==> forall id :: id in users ==> users[id].email != email
  {
    if exists id :: id in users && users[id].email == email then
      var id :| id in users && users[id].email == email;
      Some(users[id])
    else
      None
  }

  /** Inserting a row with a new id and an unused email keeps emails unique, and the row is what findByEmail returns for it. */
  lemma FindByEmailAfterInsert(users: map<UserId, User>, id: UserId, u: User)
    requires EmailsUnique(users)
    requires id !in users && FindByEmail(users, u.email).None?
    ensures EmailsUnique(users[id := u])
    ensures FindByEmail(users[id := u], u.email) == Some(u)
  {
    var after := users[id := u];
    assert after[id].email == u.email;
  }

  /** The users table. */
  class UserRepository {
    var users: map<UserId, User>
    var nextId: UserId

    ghost predicate Valid()
      reads this
    {
      && WellKeyed(users)
      && (forall id :: id in users ==> id < nextId)
      && EmailsUnique(users)
    }

    constructor ()
      ensures Valid() && users == map[]
    {
      users := map[];
      nextId := 1;
    }

    /**
     * save() of a new User: the row gets the next IDENTITY id, unless another
     * row already holds the email, in which case the constraint rejects it.
     */
    method Insert(name: string, email: string, password: string) returns (saved: Option<User>)
      requires Valid()
      modifies this
      ensures Valid()
      ensures FindByEmail(old(users), email).Some? ==> saved.None? && users == old(users) && nextId == old(nextId)
      ensures FindByEmail(old(users), email).None? ==>
                && saved == Some(User(old(nextId), name, email, password))
                && old(nextId) !in old(users)
                && users == old(users)[old(nextId) := saved.value]
                && nextId == old(nextId) + 1
    {
      if FindByEmail(users, email).Some? {
        saved := None;
        return;
      }
      var u := User(nextId, name, email, password);
      users := users[nextId := u];
      nextId := nextId + 1;
      saved := Some(u);
    }

    /**
     * save() of a User that carries an id (a merge): the row with that id is
     * overwritten; when there is none, the row is inserted under a fresh id.
     * A row that would duplicate another row's email is rejected.
     */
    method Merge(u: User) returns (saved: Option<User>)
      requires Valid()
      modifies this
      ensures Valid()
      ensures var target := if u.id in old(users) then u.id else old(nextId);
              if exists id :: id in old(users) && id != target && old(users)[id].email == u.email then
                saved.None? && users == old(users) && nextId == old(nextId)
              else
                && saved == Some(u.(id := target))
                && users == old(users)[target := saved.value]
                && nextId == (if u.id in old(users) then old(nextId) else old(nextId) + 1)
    {
      var target := if u.id in users then u.id else nextId;
      if exists id :: id in users && id != target && users[id].email == u.email {
        saved := None;
        return;
      }
      var row := u.(id := target);
      users := users[target := row];
      if target == nextId {
        nextId := nextId + 1;
      }
      saved := Some(row);
    }
  }

  /** The tasks table. */
  class TaskRepository {
    var tasks: map<TaskId, Task>
    var nextId: TaskId

    ghost predicate Valid()
      reads this
    {
      forall id :: id in tasks ==> tasks[id].id == id && id < nextId
    }

    constructor ()
      ensures Valid() && tasks == map[]
    {
      tasks := map[];
      nextId := 1;
    }
  }
}
