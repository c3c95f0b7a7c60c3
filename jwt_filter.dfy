/**
 * JwtAuthenticationFilter.doFilterInternal: the per-request pass that turns an
 * `Authorization: Bearer <token>` header into an authentication in the
 * security context, or lets the request through anonymously. It never rejects.
 */
module JwtFilter {
  import opened Wrappers
  import opened JavaStrings
  import opened Entities
  import opened Repositories
  import opened Security
  import opened JwtService

  /** Requests under this prefix (signup, login) skip the filter's logic. */
  const AUTH_PREFIX: string := "/api/auth/"

  /** The credential scheme expected at the start of the Authorization header. */
  const BEARER: string := "Bearer "

  /** What the filter reads from an HttpServletRequest: the request URI and the Authorization header. */
  datatype Request = Request(path: string, authorization: Option<string>)

  /**
   * The token the header carries: present exactly when the header starts with
   * "Bearer ", and then the header with its first seven characters removed.
   */
  function BearerToken(header: Option<string>): (r: Option<string>)
    ensures r.Some? <==> header.Some? && StartsWith(header.value, BEARER)
    ensures r.Some? ==> header.value == BEARER + r.value
  {
    if header.None? || !StartsWith(header.value, BEARER) then None
    else
      var token := header.value[7..];
      assert header.value == header.value[..7] + token;
      Some(token)
  }

  /**
   * The user a request identifies: none under the auth prefix, without a
   * Bearer header, with an invalid token, with a blank subject, or when no
   * user holds the subject's email.
   */
  function Identify(request: Request, users: map<UserId, User>, lib: Jjwt, now: int): (r: Option<User>)
    requires EmailsUnique(users)
    ensures StartsWith(request.path, AUTH_PREFIX) ==> r.None?
    ensures BearerToken(request.authorization).None? ==> r.None?
    ensures r.Some? ==> r.value in users.Values && !IsBlank(r.value.email)
  {
    if StartsWith(request.path, AUTH_PREFIX) then None
    else
      match BearerToken(request.authorization)
      case None => None
      case Some(token) =>
        if !IsTokenValid(lib, Some(token), now) then None
        else
          match ExtractEmail(lib, Some(token), now)
          case None => None
          case Some(email) => if IsBlank(email) then None else FindByEmail(users, email)
  }

  /**
   * The request-scoped state the filter works on: the security context's
   * authentication slot and the number of times the request has been handed
   * to the rest of the chain.
   */
  class JwtAuthenticationFilter {
    var authentication: Option<Authentication>
    var forwarded: nat

    constructor (current: Option<Authentication>)
      ensures authentication == current && forwarded == 0
    {
      authentication := current;
      forwarded := 0;
    }

    /**
     * One pass of doFilterInternal, with the downstream chain assumed not to
     * throw. The request is forwarded exactly once; the slot is filled with a
     * ROLE_USER authentication of the identified user only if it was empty.
     */
    method DoFilterInternal(request: Request, users: map<UserId, User>, lib: Jjwt, now: int)
      requires EmailsUnique(users)
      modifies this
      ensures forwarded == old(forwarded) + 1
      ensures authentication ==
                if old(authentication).None? && Identify(request, users, lib, now).Some?
                then Some(UserAuthentication(Identify(request, users, lib, now).value))
                else old(authentication)
    {
      if StartsWith(request.path, AUTH_PREFIX) {
        forwarded := forwarded + 1;
        return;
      }

      var authHeader := request.authorization;
      if authHeader.None? || !StartsWith(authHeader.value, BEARER) {
        forwarded := forwarded + 1;
        return;
      }

      var jwtToken := authHeader.value[7..];
      assert BearerToken(authHeader) == Some(jwtToken);

      if !IsTokenValid(lib, Some(jwtToken), now) {
        forwarded := forwarded + 1;
        return;
      }

      var email := ExtractEmail(lib, Some(jwtToken), now);
      if email.Some? && !IsBlank(email.value) {
        var user := FindByEmail(users, email.value);
        if user.Some? && authentication.None? {
          authentication := Some(UserAuthentication(user.value));
        }
      }

      forwarded := forwarded + 1;
    }
  }

  /** The header "Bearer " alone carries the empty token, which never identifies anyone. */
  lemma EmptyBearerIdentifiesNobody(path: string, users: map<UserId, User>, lib: Jjwt, now: int)
    requires EmailsUnique(users)
    ensures BearerToken(Some(BEARER)) == Some("")
    ensures Identify(Request(path, Some(BEARER)), users, lib, now).None?
  {
    assert BEARER[7..] == "";
  }

  /** A token with text that the service key signed, whose subject is email and whose exp is strictly after now. */
  ghost predicate Vouches(lib: Jjwt, token: string, email: string, now: int) {
    && HasText(token)
    && lib.parse(token).Signed?
    && lib.parse(token).key == SECRET
    && lib.parse(token).claims.subject == Some(email)
    && lib.parse(token).claims.expiration.Some?
    && now < lib.parse(token).claims.expiration.value
  }

  /** What an identified user must have: a non-blank email, a row, and a Bearer token vouching for it on a protected path. */
  lemma IdentifiedOnlyWith(request: Request, users: map<UserId, User>, lib: Jjwt, now: int, u: User)
    requires EmailsUnique(users)
    requires Identify(request, users, lib, now) == Some(u)
    ensures !StartsWith(request.path, AUTH_PREFIX)
    ensures BearerToken(request.authorization).Some?
    ensures !IsBlank(BearerToken(request.authorization).value)
    ensures Vouches(lib, BearerToken(request.authorization).value, u.email, now)
    ensures !IsBlank(u.email) && u in users.Values
  {
    var token := BearerToken(request.authorization).value;
    assert IsTokenValid(lib, Some(token), now);
    assert ExtractEmail(lib, Some(token), now) == Some(u.email);
  }

  /** A Bearer token vouching for a stored non-blank email, on a protected path, identifies that user. */
  lemma IdentifiedWith(request: Request, users: map<UserId, User>, lib: Jjwt, now: int, u: User)
    requires EmailsUnique(users)
    requires !StartsWith(request.path, AUTH_PREFIX)
    requires BearerToken(request.authorization).Some?
    requires !IsBlank(BearerToken(request.authorization).value)
    requires Vouches(lib, BearerToken(request.authorization).value, u.email, now)
    requires !IsBlank(u.email) && u in users.Values
    ensures Identify(request, users, lib, now) == Some(u)
  {
    var token := BearerToken(request.authorization).value;
    assert IsTokenValid(lib, Some(token), now);
    assert ExtractEmail(lib, Some(token), now) == Some(u.email);
    var id :| id in users && users[id] == u;
    assert FindByEmail(users, u.email) == Some(u);
  }

  /**
   * A token generated for a stored user identifies that user on every
   * protected path, from any instant before its expiry, exactly when the
   * email has text (so the token carries a sub) and is not blank (so the
   * filter keeps it).
   */
  lemma GeneratedTokenIdentifies(path: string, users: map<UserId, User>, lib: Jjwt, u: User, t0: int, now: int)
    requires EmailsUnique(users) && Lawful(lib)
    requires u in users.Values
    requires !StartsWith(path, AUTH_PREFIX)
    requires now < t0 + TOKEN_LIFETIME_MS
    ensures Identify(Request(path, Some(BEARER + GenerateToken(lib, u.email, t0))), users, lib, now)
              == if HasText(u.email) && !IsBlank(u.email) then Some(u) else None
  {
    var token := GenerateToken(lib, u.email, t0);
    var header := BEARER + token;
    var request := Request(path, Some(header));
    assert StartsWith(header, BEARER);
    assert header[7..] == token;
    GeneratedTokenClaims(lib, u.email, t0, now);
    if HasText(u.email) && !IsBlank(u.email) {
      IdentifiedWith(request, users, lib, now, u);
    } else {
      var r := Identify(request, users, lib, now);
      if r.Some? {
        IdentifiedOnlyWith(request, users, lib, now, r.value);
      }
    }
  }
}
