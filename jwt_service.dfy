/**
 * JwtService: issues and reads the signed bearer tokens. The JWS compact
 * serialisation and the HMAC-SHA256 check are done by the jjwt library, which
 * this model keeps abstract: a token string parses to a Jws value, and a
 * signature verifies exactly when the token was signed with the service key.
 */
module JwtService {
  import opened Wrappers
  import opened JavaStrings

  /** The hard-coded secret; Keys.hmacShaKeyFor(SECRET.getBytes()) is the only key the service signs and verifies with. */
  const SECRET: string := "internshipSecretKeyinternshipSecretKeyinternshipSecretKey"

  /** Token lifetime, 1000 * 60 * 60 * 24 milliseconds. */
  const TOKEN_LIFETIME_MS: int := 1000 * 60 * 60 * 24

  /** The registered claims the service uses: sub, iat and exp (times in epoch milliseconds). */
  datatype Claims = Claims(subject: Option<string>, issuedAt: Option<int>, expiration: Option<int>)

  /** What a token string decodes to: a signed claims JWS (with the key that signed it), an unsigned JWT, or nothing parsable. */
  datatype Jws = Signed(claims: Claims, key: string) | Unsigned(claims: Claims) | Garbage

  /** The exceptions parseClaimsJws throws. */
  datatype JwtError = IllegalArgument | Malformed | Unsupported | BadSignature | Expired

  /** The jjwt compact serialiser and parser. */
  datatype Jjwt = Jjwt(compact: Jws -> string, parse: string -> Jws)

  /** A library whose parser reads back what its serialiser wrote, and never writes a blank string or one without text. */
  ghost predicate Lawful(lib: Jjwt) {
    forall t :: lib.parse(lib.compact(t)) == t && !IsBlank(lib.compact(t)) && HasText(lib.compact(t))
  }

  /**
   * Jwts.parserBuilder().setSigningKey(key).build().parseClaimsJws(token).getBody():
   * a token without text, an unparsable, an unsigned, a wrongly signed and an
   * expired token throw, in that order. jjwt treats a token as expired once
   * now is strictly after exp.
   */
  function ParseClaimsJws(lib: Jjwt, token: string, now: int): (r: Result<Claims, JwtError>)
    ensures !HasText(token) ==> r == Failure(IllegalArgument)
    ensures HasText(token) && lib.parse(token).Garbage? ==> r == Failure(Malformed)
    ensures HasText(token) && lib.parse(token).Unsigned? ==> r == Failure(Unsupported)
    ensures HasText(token) && lib.parse(token).Signed? && lib.parse(token).key == SECRET
            && lib.parse(token).claims.expiration.Some? && now > lib.parse(token).claims.expiration.value
            ==> r == Failure(Expired)
    ensures r.Success? <==>
              && HasText(token)
              && lib.parse(token).Signed?
              && lib.parse(token).key == SECRET
              && (lib.parse(token).claims.expiration.Some? ==> now <= lib.parse(token).claims.expiration.value)
    ensures r.Success? ==> r.value == lib.parse(token).claims
    ensures r == Failure(BadSignature) <==> HasText(token) && lib.parse(token).Signed? && lib.parse(token).key != SECRET
  {
    if !HasText(token) then Failure(IllegalArgument)
    else
    match lib.parse(token)
    case Garbage => Failure(Malformed)
    case Unsigned(_) => Failure(Unsupported)
    case Signed(c, k) =>
      if k != SECRET then Failure(BadSignature)
      else if c.expiration.Some? && now > c.expiration.value then Failure(Expired)
      else Success(c)
  }

  /** The sub claim the builder writes: setSubject ignores a subject without text (Strings.hasText). */
  function TokenSubject(email: string): (sub: Option<string>)
    ensures sub.Some? <==> HasText(email)
    ensures sub.Some? ==> sub.value == email
  {
    if HasText(email) then Some(email) else None
  }

  /**
   * generateToken: sub = email when it has text, iat = now, exp = now + 24 h,
   * signed with the service key.
   */
  function GenerateToken(lib: Jjwt, email: string, now: int): (token: string)
    ensures Lawful(lib) ==>
              && !IsBlank(token) && HasText(token)
              && lib.parse(token) == Signed(Claims(TokenSubject(email), Some(now), Some(now + TOKEN_LIFETIME_MS)), SECRET)
  {
    var jws := Signed(Claims(TokenSubject(email), Some(now), Some(now + TOKEN_LIFETIME_MS)), SECRET);
    assert Lawful(lib) ==> lib.parse(lib.compact(jws)) == jws && !IsBlank(lib.compact(jws)) && HasText(lib.compact(jws));
    lib.compact(jws)
  }

  /**
   * extractEmail: null for a null or blank token without parsing, the subject
   * on a successful parse, and null for every parse failure.
   */
  function ExtractEmail(lib: Jjwt, token: Option<string>, now: int): (r: Option<string>)
    ensures token.None? || IsBlank(token.value) ==> r.None?
    ensures r.Some? <==>
              && token.Some? && !IsBlank(token.value)
              && ParseClaimsJws(lib, token.value, now).Success?
              && ParseClaimsJws(lib, token.value, now).value.subject.Some?
    ensures r.Some? ==> r == ParseClaimsJws(lib, token.value, now).value.subject
  {
    if token.None? || IsBlank(token.value) then None
    else
      match ParseClaimsJws(lib, token.value, now)
      case Success(c) => c.subject
      case Failure(_) => None
  }

  /**
   * isTokenValid: false when extractEmail is null; otherwise parses again and
   * asks exp.after(now). A missing exp makes getExpiration() null, and the
   * resulting exception is caught, so the answer is false.
   */
  function IsTokenValid(lib: Jjwt, token: Option<string>, now: int): (b: bool)
    ensures b ==> ExtractEmail(lib, token, now).Some?
    ensures b <==>
              && token.Some? && !IsBlank(token.value) && HasText(token.value)
              && lib.parse(token.value).Signed?
              && lib.parse(token.value).key == SECRET
              && lib.parse(token.value).claims.subject.Some?
              && lib.parse(token.value).claims.expiration.Some?
              && now < lib.parse(token.value).claims.expiration.value
  {
    if ExtractEmail(lib, token, now).None? then false
    else
      match ParseClaimsJws(lib, token.value, now)
      case Failure(_) => false
      case Success(c) => c.expiration.Some? && c.expiration.value > now
  }

  /** extractClaim: no try/catch, so a null token or any parse failure propagates as a failure. */
  function ExtractClaim<T>(lib: Jjwt, token: Option<string>, resolver: Claims -> T, now: int): (r: Result<T, JwtError>)
    ensures token.None? ==> r == Failure(IllegalArgument)
    ensures r.Success? <==> token.Some? && ParseClaimsJws(lib, token.value, now).Success?
    ensures r.Success? ==> r.value == resolver(ParseClaimsJws(lib, token.value, now).value)
    ensures r.Failure? && token.Some? ==> r.error == ParseClaimsJws(lib, token.value, now).error
  {
    if token.None? then Failure(IllegalArgument)
    else
      match ParseClaimsJws(lib, token.value, now)
      case Success(c) => Success(resolver(c))
      case Failure(e) => Failure(e)
  }

  /** extractExpiration: the exp claim (possibly absent) of a token that parses; a failure otherwise. */
  function ExtractExpiration(lib: Jjwt, token: Option<string>, now: int): (r: Result<Option<int>, JwtError>)
    ensures r.Success? <==> token.Some? && ParseClaimsJws(lib, token.value, now).Success?
    ensures r.Failure? && token.Some? ==> r.error == ParseClaimsJws(lib, token.value, now).error
    ensures r.Success? ==> token.Some? && lib.parse(token.value).Signed? && r.value == lib.parse(token.value).claims.expiration
  {
    ExtractClaim(lib, token, (c: Claims) => c.expiration, now)
  }

  /** A freshly generated token parses back to its sub, iat t0 and exp t0 + 24 h until it expires. */
  lemma GeneratedTokenClaims(lib: Jjwt, email: string, t0: int, now: int)
    requires Lawful(lib)
    ensures var token := GenerateToken(lib, email, t0);
            && !IsBlank(token)
            && (now <= t0 + TOKEN_LIFETIME_MS ==>
                  ParseClaimsJws(lib, token, now) == Success(Claims(TokenSubject(email), Some(t0), Some(t0 + TOKEN_LIFETIME_MS))))
            && (now > t0 + TOKEN_LIFETIME_MS ==> ParseClaimsJws(lib, token, now) == Failure(Expired))
  {
  }

  /**
   * Round trip: until its expiry instant, extractEmail(generateToken(e)) is e
   * when e has text, and null otherwise, since the token then has no sub.
   */
  lemma ExtractEmailOfGenerated(lib: Jjwt, email: string, t0: int, now: int)
    requires Lawful(lib)
    requires now <= t0 + TOKEN_LIFETIME_MS
    ensures ExtractEmail(lib, Some(GenerateToken(lib, email, t0)), now) == TokenSubject(email)
    ensures HasText(email) ==> ExtractEmail(lib, Some(GenerateToken(lib, email, t0)), now) == Some(email)
  {
    GeneratedTokenClaims(lib, email, t0, now);
  }

  /**
   * A generated token is valid exactly when the email has text and now is
   * strictly before t0 + 24 h.
   */
  lemma GeneratedTokenValidity(lib: Jjwt, email: string, t0: int, now: int)
    requires Lawful(lib)
    ensures IsTokenValid(lib, Some(GenerateToken(lib, email, t0)), now) <==> HasText(email) && now < t0 + TOKEN_LIFETIME_MS
  {
    GeneratedTokenClaims(lib, email, t0, now);
  }

  /**
   * At the expiry instant itself the two readers disagree: jjwt still accepts
   * the token, so extractEmail returns its subject, while isTokenValid is false.
   */
  lemma AtExpiryInstant(lib: Jjwt, token: string, c: Claims, now: int)
    requires !IsBlank(token) && HasText(token)
    requires lib.parse(token) == Signed(c, SECRET)
    requires c.subject.Some? && c.expiration == Some(now)
    ensures ExtractEmail(lib, Some(token), now) == c.subject
    ensures !IsTokenValid(lib, Some(token), now)
  {
  }

  /**
   * A token signed with any other key is rejected as a bad signature (after
   * the text check), and neither reader accepts it.
   */
  lemma ForeignKeyRejected(lib: Jjwt, token: string, c: Claims, other: string, now: int)
    requires lib.parse(token) == Signed(c, other) && other != SECRET
    ensures ParseClaimsJws(lib, token, now) == if HasText(token) then Failure(BadSignature) else Failure(IllegalArgument)
    ensures ExtractEmail(lib, Some(token), now).None?
    ensures !IsTokenValid(lib, Some(token), now)
    ensures ExtractExpiration(lib, Some(token), now) == Failure(ParseClaimsJws(lib, token, now).error)
  {
  }

  /**
   * Where extractEmail swallows a failure into null, extractExpiration lets
   * the same failure through.
   */
  lemma ReadersOnFailure(lib: Jjwt, token: string, now: int)
    requires ParseClaimsJws(lib, token, now).Failure?
    ensures ExtractEmail(lib, Some(token), now).None?
    ensures !IsTokenValid(lib, Some(token), now)
    ensures ExtractExpiration(lib, Some(token), now) == Failure(ParseClaimsJws(lib, token, now).error)
  {
  }
}
