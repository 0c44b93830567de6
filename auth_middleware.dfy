/** backend/middleware/AuthMiddleware.php: the gate every protected endpoint
    passes first. It turns the Authorization header into the decoded token
    payload (the principal), or answers 401; `requireRole` adds a 403 for a
    principal whose role is not listed. */
module AuthMiddleware {
  import opened Common
  import opened Strings
  import opened Jwt

  /** What one request brings to the gate: the token codec and the configured
      secret, the Authorization header (None when absent) and the clock. */
  datatype Context = Context(codec: Codec, secret: Option<string>, authorization: Option<string>, now: int)

  /** The token a header carries: every `"Bearer "` in it is removed, wherever it occurs. */
  function BearerToken(header: string): string {
    ReplaceAll(header, "Bearer ", "")
  }

  /** `authenticate`. */
  function Authenticate(ctx: Context): (r: Reply<TokenPayload>)
    ensures r.Error? ==> r.status == Unauthorized
    ensures Blank(ctx.authorization) ==> r.Error?
    ensures r.Ok? <==>
              !Blank(ctx.authorization) &&
              Decode(ctx.codec, ctx.secret, BearerToken(ctx.authorization.value), ctx.now).Success?
    ensures r.Ok? ==> Decode(ctx.codec, ctx.secret, BearerToken(ctx.authorization.value), ctx.now) == Success(r.value)
  {
    if Blank(ctx.authorization) then Error(Unauthorized)
    else match Decode(ctx.codec, ctx.secret, BearerToken(ctx.authorization.value), ctx.now)
      case Failure(_) => Error(Unauthorized)
      case Success(p) => Ok(p)
  }

  /** `in_array($role, $allowed)`: a JSON null role compares loosely equal to "" only. */
  predicate RoleIn(role: Option<string>, allowed: seq<string>) {
    match role
    case None => "" in allowed
    case Some(name) => name in allowed
  }

  /** `requireRole`: authentication comes first, so a bad token is a 401 whatever the role. */
  function RequireRole(ctx: Context, allowed: seq<string>): (r: Reply<TokenPayload>)
    ensures Authenticate(ctx).Error? ==> r == Error(Unauthorized)
    ensures r == Error(Forbidden) <==> Authenticate(ctx).Ok? && !RoleIn(Authenticate(ctx).value.claims.role, allowed)
    ensures r.Ok? ==> r == Authenticate(ctx) && RoleIn(r.value.claims.role, allowed)
  {
    match Authenticate(ctx)
    case Error(s) => Error(s)
    case Ok(p) => if RoleIn(p.claims.role, allowed) then Ok(p) else Error(Forbidden)
  }

  /** The strict role tests the controllers make (`=== 'Admin'` and so on). */
  predicate IsAdmin(p: TokenPayload) { p.claims.role == Some(ADMIN) }
  predicate IsCustodian(p: TokenPayload) { p.claims.role == Some(CUSTODIAN) }
  predicate IsStaff(p: TokenPayload) { p.claims.role == Some(STAFF) }

  /** `"Bearer " + token` yields the token back when the token holds no space,
      as every token the codec issues does. */
  lemma BearerPrefixRemoved(token: string)
    requires ' ' !in token
    ensures BearerToken("Bearer " + token) == token
  {
    ReplaceAllLeading("Bearer ", token, "");
    ReplaceAllAbsent(token, "Bearer ", "", ' ');
  }

  /** The removal is not a prefix strip: a header without the scheme passes its
      text on unchanged, and a `"Bearer "` in the middle is removed too. */
  lemma BearerRemovedAnywhere(a: string, b: string)
    requires 'B' !in a && ' ' !in a && ' ' !in b
    ensures BearerToken(a) == a
    ensures BearerToken(a + "Bearer " + b) == a + b
  {
    ReplaceAllAbsent(a, "Bearer ", "", ' ');
    ReplaceAllAbsent(b, "Bearer ", "", ' ');
    assert a + "Bearer " + b == a + ("Bearer " + b);
    ReplaceAllSkip(a, "Bearer " + b, "Bearer ", "");
    ReplaceAllLeading("Bearer ", b, "");
  }

  /** A token issued by the codec, sent as `Bearer <token>` before it expires and
      checked with the same secret, authenticates as exactly the claims it was
      issued for. */
  lemma AuthenticateIssuedToken(ctx: Context, claims: Claims, issuedAt: int, expiresIn: int)
    requires ctx.secret.Some?
    requires var p := TokenPayload(claims, issuedAt, issuedAt + expiresIn);
             ctx.codec.jsonDecode(ctx.codec.jsonEncode(p)) == Some(p)
    requires ctx.now <= issuedAt + expiresIn
    requires Encode(ctx.codec, ctx.secret, claims, issuedAt, expiresIn).Success?
    requires ctx.authorization == Some("Bearer " + Encode(ctx.codec, ctx.secret, claims, issuedAt, expiresIn).value)
    ensures Authenticate(ctx) == Ok(TokenPayload(claims, issuedAt, issuedAt + expiresIn))
  {
    var token := Encode(ctx.codec, ctx.secret, claims, issuedAt, expiresIn).value;
    IssuedTokenHasNoSpace(ctx.codec, ctx.secret, claims, issuedAt, expiresIn);
    BearerPrefixRemoved(token);
    assert !Blank(ctx.authorization) by {
      assert ctx.authorization.value[0] == 'B';
    }
    DecodeEncode(ctx.codec, ctx.secret.value, claims, issuedAt, expiresIn, ctx.now);
    assert Decode(ctx.codec, ctx.secret, BearerToken(ctx.authorization.value), ctx.now)
           == Success(TokenPayload(claims, issuedAt, issuedAt + expiresIn));
  }

  /** An issued token is three base64url segments joined by dots: it holds no space. */
  lemma IssuedTokenHasNoSpace(codec: Codec, secret: Option<string>, claims: Claims, now: int, expiresIn: int)
    requires Encode(codec, secret, claims, now, expiresIn).Success?
    ensures ' ' !in Encode(codec, secret, claims, now, expiresIn).value
  {
    var token := Encode(codec, secret, claims, now, expiresIn).value;
    var parts := Split(token, '.');
    forall k | 0 <= k < |parts| ensures ' ' !in parts[k] {
      assert UrlSafe(parts[k]);
    }
    JoinAvoids(parts, '.', ' ');
  }
}
