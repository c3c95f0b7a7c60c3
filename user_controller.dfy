/**
 * UserController: read and rename the logged-in user. The handlers receive
 * Spring's Authentication argument, which is null for an anonymous request,
 * and cast its principal to User without checking.
 */
module UserController {
  import opened Wrappers
  import opened Entities
  import opened Repositories
  import opened Security

  /** NullPointerException, ClassCastException, "User not found", and a save the unique email constraint rejects. */
  datatype UserError = NullAuthentication | NotAUser | UserNotFound | SaveRejected

  /** (User) authentication.getPrincipal(). */
  function PrincipalUser(auth: Option<Authentication>): (r: Result<User, UserError>)
    ensures r == Failure(NullAuthentication) <==> auth.None?
    ensures r == Failure(NotAUser) <==> auth.Some? && auth.value.principal.OtherPrincipal?
    ensures r.Success? <==> auth.Some? && auth.value.principal.UserPrincipal?
    ensures r.Success? ==> auth.Some? && auth.value.principal == UserPrincipal(r.value)
  {
    if auth.None? then Failure(NullAuthentication)
    else
      match auth.value.principal
      case UserPrincipal(u) => Success(u)
      case OtherPrincipal(_) => Failure(NotAUser)
  }

  /**
   * getProfile: the stored row whose id is the principal's id (not the
   * principal object itself), or "User not found" when there is none.
   */
  function GetProfile(repo: UserRepository, auth: Option<Authentication>): (r: Result<User, UserError>)
    reads repo
    requires repo.Valid()
    ensures PrincipalUser(auth).Failure? ==> r == Failure(PrincipalUser(auth).error)
    ensures PrincipalUser(auth).Success? ==>
              (r == Failure(UserNotFound) <==> PrincipalUser(auth).value.id !in repo.users)
    ensures r.Success? ==>
              && PrincipalUser(auth).Success?
              && r.value in repo.users.Values
              && r.value.id == PrincipalUser(auth).value.id
    ensures PrincipalUser(auth).Success? && PrincipalUser(auth).value.id in repo.users ==>
              r == Success(repo.users[PrincipalUser(auth).value.id])
  {
    match PrincipalUser(auth)
    case Failure(e) => Failure(e)
    case Success(p) => if p.id in repo.users then Success(repo.users[p.id]) else Failure(UserNotFound)
  }

  /** user.setName(updatedUser.getName()): the principal's record with only its name taken from the body. */
  function Renamed(principal: User, body: User): (u: User)
    ensures u.name == body.name
  {
    principal.(name := body.name)
  }

  /** What the body carries besides its name has no effect on the renamed record. */
  lemma RenamedUsesOnlyName(principal: User, body: User, other: User)
    requires body.name == other.name
    ensures Renamed(principal, body) == Renamed(principal, other)
    ensures Renamed(principal, body).id == principal.id
    ensures Renamed(principal, body).email == principal.email
    ensures Renamed(principal, body).password == principal.password
  {
  }

  /**
   * updateProfile: renames the principal and saves it. The save goes to the
   * principal's row when it still exists and to a fresh id otherwise; it is
   * rejected exactly when another row holds the principal's email. The saved
   * row keeps the principal's email and password, and every other row is
   * unchanged.
   */
  method UpdateProfile(repo: UserRepository, auth: Option<Authentication>, body: User) returns (r: Result<User, UserError>)
    requires repo.Valid()
    modifies repo
    ensures repo.Valid()
    ensures PrincipalUser(auth).Failure? ==>
              r == Failure(PrincipalUser(auth).error) && repo.users == old(repo.users) && repo.nextId == old(repo.nextId)
    ensures r == Failure(SaveRejected) ==> repo.users == old(repo.users) && repo.nextId == old(repo.nextId)
    ensures r.Success? ==>
              && PrincipalUser(auth).Success?
              && var p := PrincipalUser(auth).value;
                 && r.value == Renamed(p, body).(id := r.value.id)
                 && (p.id in old(repo.users) ==> r.value.id == p.id)
                 && repo.users == old(repo.users)[r.value.id := r.value]
    ensures PrincipalUser(auth).Success? ==>
              var p := PrincipalUser(auth).value;
              var target := if p.id in old(repo.users) then p.id else old(repo.nextId);
              if exists id :: id in old(repo.users) && id != target && old(repo.users)[id].email == p.email then
                r == Failure(SaveRejected)
              else
                && r == Success(Renamed(p, body).(id := target))
                && repo.nextId == (if p.id in old(repo.users) then old(repo.nextId) else old(repo.nextId) + 1)
    ensures r.Failure? ==> r.error != UserNotFound
  {
    var principal := PrincipalUser(auth);
    if principal.Failure? {
      r := Failure(principal.error);
      return;
    }
    var user := Renamed(principal.value, body);
    var saved := repo.Merge(user);
    if saved.None? {
      r := Failure(SaveRejected);
      return;
    }
    r := Success(saved.value);
  }
}
