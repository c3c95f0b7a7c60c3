/**
 * AuthController: signup stores a user under the normalised email and issues
 * a token for it; login validates the request in a fixed order and issues a
 * token for the stored email.
 */
module AuthController {
  import opened Wrappers
  import opened JavaStrings
  import opened Entities
  import opened Repositories
  import opened JwtService
  import opened JwtFilter

  /** The signup/login request body; Java leaves email and password null when they are missing. */
  datatype AuthRequest = AuthRequest(name: string, email: Option<string>, password: Option<string>)

  /** 200 with {"token": ...}, or a status code with {"message": ...}. */
  datatype AuthResponse = Issued(token: string) | Rejected(status: int, message: string)

  /** The PasswordEncoder bean: encode a raw password, and test a raw password against an encoded one. */
  datatype PasswordEncoder = PasswordEncoder(encode: string -> string, matches: (string, string) -> bool)

  /** Every encoding matches the password it was made from. */
  ghost predicate Sound(encoder: PasswordEncoder) {
    forall p :: encoder.matches(p, encoder.encode(p))
  }

  const SIGNUP_FAILED: string := "Signup failed: "

  /** Why signup's try block threw. */
  datatype SignupFailure = NullEmail | NullPassword | DuplicateEmail

  /** The exception message signup appends to its prefix. */
  function FailureDetail(f: SignupFailure): (detail: string)
    ensures detail != ""
  {
    match f
    case NullEmail => "email is null"
    case NullPassword => "rawPassword cannot be null"
    case DuplicateEmail => "duplicate email"
  }

  /**
   * email.trim().toLowerCase(): the lower-cased slice of the email left once
   * its leading and trailing trimmable characters are removed; empty exactly
   * for a blank input, with no upper-case letter and no trimmable character
   * at either end.
   */
  function NormalizeEmail(email: string): (r: string)
    ensures exists a, b :: 0 <= a <= b <= |email| && r == ToLowerCase(email[a..b])
                         && (forall i :: 0 <= i < a ==> IsTrimmable(email[i]))
                         && (forall i :: b <= i < |email| ==> IsTrimmable(email[i]))
    ensures r == "" <==> IsBlank(email)
    ensures |r| <= |email|
    ensures forall i :: 0 <= i < |r| ==> !('A' <= r[i] <= 'Z')
    ensures r != [] ==> !IsTrimmable(r[0]) && !IsTrimmable(r[|r| - 1])
  {
    ToLowerCase(Trim(email))
  }

  /** Normalising a normalised email changes nothing. */
  lemma NormalizeEmailIdempotent(email: string)
    ensures NormalizeEmail(NormalizeEmail(email)) == NormalizeEmail(email)
  {
    var n := NormalizeEmail(email);
    TrimOfTrimmed(n);
    ToLowerCaseIdempotent(Trim(email));
  }

  /**
   * signup: builds the user (name as given, email normalised, password
   * encoded), saves it and issues a token for the normalised email. A null
   * email, a null password or an email already stored makes it fail with 400
   * and a message starting "Signup failed: ", storing nothing.
   */
  method Signup(repo: UserRepository, encoder: PasswordEncoder, lib: Jjwt, request: AuthRequest, now: int)
    returns (response: AuthResponse)
    requires repo.Valid()
    modifies repo
    ensures repo.Valid()
    ensures response.Rejected? ==>
              && response.status == 400 && StartsWith(response.message, SIGNUP_FAILED)
              && repo.users == old(repo.users) && repo.nextId == old(repo.nextId)
    ensures request.email.None? ==> response == Rejected(400, SIGNUP_FAILED + FailureDetail(NullEmail))
    ensures request.email.Some? && request.password.None? ==>
              response == Rejected(400, SIGNUP_FAILED + FailureDetail(NullPassword))
    ensures request.email.Some? && request.password.Some? ==>
              var email := NormalizeEmail(request.email.value);
              if FindByEmail(old(repo.users), email).Some? then
                response == Rejected(400, SIGNUP_FAILED + FailureDetail(DuplicateEmail))
              else
                && response == Issued(GenerateToken(lib, email, now))
                && old(repo.nextId) !in old(repo.users)
                && repo.users == old(repo.users)[old(repo.nextId) :=
                     User(old(repo.nextId), request.name, email, encoder.encode(request.password.value))]
                && repo.nextId == old(repo.nextId) + 1
  {
    if request.email.None? {
      response := Rejected(400, SIGNUP_FAILED + FailureDetail(NullEmail));
      return;
    }
    var email := ToLowerCase(Trim(request.email.value));
    if request.password.None? {
      response := Rejected(400, SIGNUP_FAILED + FailureDetail(NullPassword));
      return;
    }
    var saved := repo.Insert(request.name, email, encoder.encode(request.password.value));
    if saved.None? {
      response := Rejected(400, SIGNUP_FAILED + FailureDetail(DuplicateEmail));
      return;
    }
    response := Issued(GenerateToken(lib, saved.value.email, now));
  }

  /** login's first check passes: a non-null email that is not blank. */
  predicate HasEmail(request: AuthRequest) {
    request.email.Some? && !IsBlank(request.email.value)
  }

  /** login's second check passes: a non-null, non-empty password (it is not trimmed). */
  predicate HasPassword(request: AuthRequest) {
    request.password.Some? && request.password.value != ""
  }

  /**
   * login: "Email is required" (400) first, then "Password is required" (400),
   * then "User not found" (400) for an unknown normalised email, then
   * "Invalid credentials" (401) on a password mismatch; otherwise a token for
   * the stored email, which is the normalised request email.
   */
  function Login(users: map<UserId, User>, encoder: PasswordEncoder, lib: Jjwt, request: AuthRequest, now: int)
    : (r: AuthResponse)
    requires EmailsUnique(users)
    ensures r == Rejected(400, "Email is required") <==> !HasEmail(request)
    ensures r == Rejected(400, "Password is required") <==> HasEmail(request) && !HasPassword(request)
    ensures r == Rejected(400, "User not found") <==>
              HasEmail(request) && HasPassword(request) && FindByEmail(users, NormalizeEmail(request.email.value)).None?
    ensures r == Rejected(401, "Invalid credentials") <==>
              && HasEmail(request) && HasPassword(request)
              && FindByEmail(users, NormalizeEmail(request.email.value)).Some?
              && !encoder.matches(request.password.value, FindByEmail(users, NormalizeEmail(request.email.value)).value.password)
    ensures r.Rejected? ==> r.status == 400 || r == Rejected(401, "Invalid credentials")
    ensures r.Issued? <==>
              && HasEmail(request) && HasPassword(request)
              && exists id :: id in users && users[id].email == NormalizeEmail(request.email.value)
                                          && encoder.matches(request.password.value, users[id].password)
    ensures r.Issued? ==> r == Issued(GenerateToken(lib, NormalizeEmail(request.email.value), now))
  {
    if !HasEmail(request) then Rejected(400, "Email is required")
    else if !HasPassword(request) then Rejected(400, "Password is required")
    else
      match FindByEmail(users, NormalizeEmail(request.email.value))
      case None => Rejected(400, "User not found")
      case Some(user) =>
        if !encoder.matches(request.password.value, user.password) then Rejected(401, "Invalid credentials")
        else Issued(GenerateToken(lib, user.email, now))
  }

  /** The email and password checks do not depend on the store: they come before it is read. */
  lemma LoginChecksPrecedeStore(users: map<UserId, User>, others: map<UserId, User>, encoder: PasswordEncoder,
                                lib: Jjwt, request: AuthRequest, now: int)
    requires EmailsUnique(users) && EmailsUnique(others)
    requires !HasEmail(request) || !HasPassword(request)
    ensures Login(users, encoder, lib, request, now) == Login(others, encoder, lib, request, now)
  {
  }

  /**
   * After a successful signup, logging in with the same password and any
   * email that normalises to the same address issues a token for that
   * address.
   */
  lemma LoginAfterSignup(users: map<UserId, User>, encoder: PasswordEncoder, lib: Jjwt,
                         id: UserId, name: string, email: string, password: string,
                         request: AuthRequest, now: int)
    requires EmailsUnique(users) && Sound(encoder)
    requires id !in users && FindByEmail(users, NormalizeEmail(email)).None?
    requires !IsBlank(email) && password != ""
    requires request.email.Some? && NormalizeEmail(request.email.value) == NormalizeEmail(email)
    requires request.password == Some(password)
    ensures var after := users[id := User(id, name, NormalizeEmail(email), encoder.encode(password))];
            && EmailsUnique(after)
            && Login(after, encoder, lib, request, now) == Issued(GenerateToken(lib, NormalizeEmail(email), now))
  {
    var user := User(id, name, NormalizeEmail(email), encoder.encode(password));
    FindByEmailAfterInsert(users, id, user);
    var after := users[id := user];
    assert HasEmail(request) && HasPassword(request);
    assert FindByEmail(after, NormalizeEmail(request.email.value)) == Some(user);
    assert encoder.matches(password, encoder.encode(password));
  }

  /** An account stored with a blank email never logs in: login's email check rejects every request that would find it. */
  lemma BlankEmailAccountUnreachable(users: map<UserId, User>, encoder: PasswordEncoder, lib: Jjwt,
                                     request: AuthRequest, now: int, u: User)
    requires EmailsUnique(users) && u in users.Values && IsBlank(u.email)
    ensures Login(users, encoder, lib, request, now).Issued? ==>
              FindByEmail(users, NormalizeEmail(request.email.value)) != Some(u)
  {
  }

  /**
   * An account stored with the encoding of the empty password logs in only
   * through another password that matches that encoding; with an encoder
   * under which no non-empty password does, it never logs in.
   */
  lemma EmptyPasswordAccountUnreachable(users: map<UserId, User>, encoder: PasswordEncoder, lib: Jjwt,
                                        request: AuthRequest, now: int, u: User)
    requires EmailsUnique(users) && u in users.Values && u.password == encoder.encode("")
    requires forall q :: q != "" ==> !encoder.matches(q, encoder.encode(""))
    ensures Login(users, encoder, lib, request, now).Issued? ==>
              FindByEmail(users, NormalizeEmail(request.email.value)) != Some(u)
  {
  }

  /**
   * A token issued by login authenticates the stored user on any protected
   * path until 24 hours after the login, provided the stored email has text:
   * otherwise the token carries no sub and authenticates nobody.
   */
  lemma LoginTokenIdentifies(users: map<UserId, User>, encoder: PasswordEncoder, lib: Jjwt,
                             request: AuthRequest, t0: int, token: string, path: string, now: int)
    requires EmailsUnique(users) && Lawful(lib)
    requires Login(users, encoder, lib, request, t0) == Issued(token)
    requires !StartsWith(path, AUTH_PREFIX) && now < t0 + TOKEN_LIFETIME_MS
    ensures FindByEmail(users, NormalizeEmail(request.email.value)).Some?
    ensures Identify(Request(path, Some(BEARER + token)), users, lib, now)
              == if HasText(NormalizeEmail(request.email.value)) then FindByEmail(users, NormalizeEmail(request.email.value)) else None
  {
    var user := FindByEmail(users, NormalizeEmail(request.email.value)).value;
    GeneratedTokenIdentifies(path, users, lib, user, t0, now);
  }

  /**
   * Signup accepts a blank email and stores it as "", but the token it issues
   * for "" never authenticates: the filter drops blank subjects.
   */
  lemma BlankEmailTokenIdentifiesNobody(users: map<UserId, User>, lib: Jjwt, t0: int, path: string, now: int)
    requires EmailsUnique(users) && Lawful(lib)
    ensures Identify(Request(path, Some(BEARER + GenerateToken(lib, "", t0))), users, lib, now).None?
  {
    var token := GenerateToken(lib, "", t0);
    GeneratedTokenClaims(lib, "", t0, now);
    var request := Request(path, Some(BEARER + token));
    assert (BEARER + token)[7..] == token;
    var r := Identify(request, users, lib, now);
    if r.Some? {
      IdentifiedOnlyWith(request, users, lib, now, r.value);
    }
  }
}
