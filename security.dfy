/** The parts of Spring Security's authentication objects that the core reads or builds. */
module Security {
  import opened Wrappers
  import opened Entities

  /** The single authority the filter grants. */
  const ROLE_USER: string := "ROLE_USER"

  /** Authentication.getPrincipal(): a User entity, or anything else (such as the anonymous user's name). */
  datatype Principal = UserPrincipal(user: User) | OtherPrincipal(name: string)

  /** An Authentication object as the controllers see it. */
  datatype Authentication = Authentication(
    principal: Principal,
    credentials: Option<string>,
    authorities: seq<string>,
    authenticated: bool)

  /**
   * new UsernamePasswordAuthenticationToken(user, null, [ROLE_USER]): the
   * three-argument constructor marks the token as authenticated.
   */
  function UserAuthentication(u: User): (auth: Authentication)
    ensures auth.principal == UserPrincipal(u) && auth.authenticated
    ensures auth.credentials.None? && auth.authorities == [ROLE_USER]
  {
    Authentication(UserPrincipal(u), None, [ROLE_USER], true)
  }
}
