/** The hand-rolled session-token codec of backend/utils/JWT.php: a JWS compact
    serialisation (section 7.1 of RFC 7515) signed with HS256 (section 3.2 of
    RFC 7518), each segment base64url-encoded without padding (section 5 of
    RFC 4648). HMAC-SHA256 and JSON are library calls this model cannot see: they
    are the function fields of `Codec`, and the one law the round trip needs
    (JSON decoding undoes JSON encoding) is a hypothesis of the lemma that uses it. */
module Jwt {
  import opened Common
  import opened Strings
  import Base64

  /** The claims AuthController puts into a token. */
  datatype Claims = Claims(userId: int, schoolId: string, role: Option<string>,
                           departmentId: Option<int>, fullName: Option<string>)

  /** The signed payload: the claims plus the `iat` and `exp` the encoder adds. */
  datatype TokenPayload = TokenPayload(claims: Claims, iat: int, exp: int)

  /** The library functions the codec calls. */
  datatype Codec = Codec(
    hmacSha256: (string, string) -> Bytes,          // hash_hmac('sha256', message, key, true)
    jsonEncode: TokenPayload -> Bytes,              // json_encode of the payload array
    jsonDecode: Bytes -> Option<TokenPayload>)      // json_decode; None when it yields null

  datatype JwtError = MissingSecret | InvalidFormat | InvalidSignature | Expired

  datatype Result<+T> = Success(value: T) | Failure(error: JwtError)

  /** Lifetime of a token when the caller gives none: one day. */
  const DEFAULT_EXPIRES_IN: int := 86400

  /** `json_encode(['typ' => 'JWT', 'alg' => 'HS256'])`. */
  const HEADER_JSON: string := "{\"typ\":\"JWT\",\"alg\":\"HS256\"}"

  function Latin1(s: string): Bytes {
    seq(|s|, i requires 0 <= i < |s| => (s[i] as int) % 256)
  }

  /** The secret `getSecret` accepts from the environment: a missing or PHP-empty
      value (`""` or `"0"`) is refused. */
  function ReadSecret(env: Option<string>): (secret: Option<string>)
    ensures secret.Some? <==> !Blank(env)
    ensures secret.Some? ==> secret == env
  {
    if Blank(env) then None else env
  }

  /** The static `$secret` field, filled on the first successful read. */
  class SecretCache {
    var cached: Option<string>

    constructor ()
      ensures cached == None
    {
      cached := None;
    }

    /** `getSecret`: once a secret is cached, the environment is not read again. */
    method GetSecret(env: Option<string>) returns (secret: Option<string>)
      modifies this
      ensures old(cached).Some? ==> secret == old(cached) && cached == old(cached)
      ensures old(cached).None? ==> secret == ReadSecret(env) && cached == secret
    {
      if cached.None? {
        cached := ReadSecret(env);
      }
      secret := cached;
    }
  }

  predicate IsUrlChar(c: char) {
    ('A' <= c <= 'Z') || ('a' <= c <= 'z') || ('0' <= c <= '9') || c == '-' || c == '_'
  }

  /** Text made of the base64url alphabet only. */
  predicate UrlSafe(s: string) {
    forall k :: 0 <= k < |s| ==> IsUrlChar(s[k])
  }

  /** `base64UrlEncode`: `rtrim(strtr(base64_encode($data), '+/', '-_'), '=')`. */
  function Base64UrlEncode(data: Bytes): (r: string)
    ensures UrlSafe(r)
    ensures '+' !in r && '/' !in r && '=' !in r && '.' !in r
  {
    UrlEncodeIsTranslatedUnpadded(data);
    TrimRight(Translate(Base64.Encode(data), "+/", "-_"), '=')
  }

  /** `base64UrlDecode`: `strtr($data, '-_', '+/')`. */
  function Base64UrlDecode(s: string): (r: string)
    ensures |r| == |s|
    ensures forall k :: 0 <= k < |s| ==>
              r[k] == (if s[k] == '-' then '+' else if s[k] == '_' then '/' else s[k])
  {
    Translate(s, "-_", "+/")
  }

  /** Stripping the padding after the translation leaves the translated unpadded
      encoding, which is made of URL-safe characters only. */
  lemma UrlEncodeIsTranslatedUnpadded(data: Bytes)
    ensures TrimRight(Translate(Base64.Encode(data), "+/", "-_"), '=')
            == Translate(Base64.EncodeUnpadded(data), "+/", "-_")
    ensures forall k :: 0 <= k < |Base64.EncodeUnpadded(data)| ==>
              IsUrlChar(Translate(Base64.EncodeUnpadded(data), "+/", "-_")[k])
  {
    var u := Base64.EncodeUnpadded(data);
    var pad := Base64.Padding(|data|);
    var tu := Translate(u, "+/", "-_");
    assert Translate(u + pad, "+/", "-_") == tu + pad by {
      assert forall k :: 0 <= k < |pad| ==> TranslateChar(pad[k], "+/", "-_") == pad[k];
    }
    assert forall k :: 0 <= k < |tu| ==> IsUrlChar(tu[k]) by {
      forall k | 0 <= k < |tu| ensures IsUrlChar(tu[k]) {
        assert Base64.IsAlphabetChar(u[k]);
      }
    }
    TrimRightPadding(tu, pad, '=');
  }

  /** `base64UrlDecode` undoes the character translation of `base64UrlEncode`:
      what is left is the standard encoding without its padding. */
  lemma UrlDecodeUndoesTranslation(data: Bytes)
    ensures Base64UrlDecode(Base64UrlEncode(data)) == Base64.EncodeUnpadded(data)
  {
    UrlEncodeIsTranslatedUnpadded(data);
    var u := Base64.EncodeUnpadded(data);
    assert forall k :: 0 <= k < |u| ==> Base64.IsAlphabetChar(u[k]);
  }

  /** `base64_decode(base64UrlDecode(base64UrlEncode($data))) == $data`. */
  lemma UrlRoundTrip(data: Bytes)
    ensures Base64.Decode(Base64UrlDecode(Base64UrlEncode(data))) == data
  {
    UrlDecodeUndoesTranslation(data);
    Base64.DecodeEncodeWithoutPadding(data);
  }

  /** The third segment for a given header and payload segment. */
  function Signature(codec: Codec, header: string, payload: string, secret: string): string {
    Base64UrlEncode(codec.hmacSha256(header + "." + payload, secret))
  }

  /** `JWT::encode($payload, $expiresIn)` at time `now`. */
  function Encode(codec: Codec, secret: Option<string>, claims: Claims, now: int,
                  expiresIn: int := DEFAULT_EXPIRES_IN): (r: Result<string>)
    ensures secret.None? <==> r == Failure(MissingSecret)
    ensures r.Success? ==>
              var parts := Split(r.value, '.');
              && |parts| == 3
              && (forall k :: 0 <= k < 3 ==> UrlSafe(parts[k]))
              && parts[2] == Signature(codec, parts[0], parts[1], secret.value)
              && Base64.Decode(Base64UrlDecode(parts[1]))
                 == codec.jsonEncode(TokenPayload(claims, now, now + expiresIn))
  {
    var header := Base64UrlEncode(Latin1(HEADER_JSON));
    var payloadBytes := codec.jsonEncode(TokenPayload(claims, now, now + expiresIn));
    var payload := Base64UrlEncode(payloadBytes);
    if secret.None? then Failure(MissingSecret)
    else
      var signature := Signature(codec, header, payload, secret.value);
      TokenSegments(header, payload, signature);
      UrlRoundTrip(payloadBytes);
      Success(header + "." + payload + "." + signature)
  }

  /** Three URL-safe segments joined by dots split back into themselves. */
  lemma TokenSegments(header: string, payload: string, signature: string)
    requires UrlSafe(header) && UrlSafe(payload) && UrlSafe(signature)
    ensures Split(header + "." + payload + "." + signature, '.') == [header, payload, signature]
    ensures forall k :: 0 <= k < 3 ==> UrlSafe([header, payload, signature][k])
  {
    assert '.' !in header && '.' !in payload && '.' !in signature;
    SplitThree(header, payload, signature, '.');
  }

  /** `JWT::decode($jwt)` at time `now`. The checks run in a fixed order:
      segment count, secret, signature, then expiry. */
  function Decode(codec: Codec, secret: Option<string>, jwt: string, now: int): (r: Result<TokenPayload>)
    ensures Count(jwt, '.') != 2 ==> r == Failure(InvalidFormat)
    ensures Count(jwt, '.') == 2 && secret.Some? &&
            Split(jwt, '.')[2] != Signature(codec, Split(jwt, '.')[0], Split(jwt, '.')[1], secret.value)
            ==> r == Failure(InvalidSignature)
    ensures r.Success? ==>
              && secret.Some?
              && Split(jwt, '.')[2] == Signature(codec, Split(jwt, '.')[0], Split(jwt, '.')[1], secret.value)
              && codec.jsonDecode(Base64.Decode(Base64UrlDecode(Split(jwt, '.')[1]))) == Some(r.value)
              && now <= r.value.exp
  {
    var parts := Split(jwt, '.');
    if |parts| != 3 then Failure(InvalidFormat)
    else
      // The header segment is decoded too, but its value is never used.
      var payload := Base64.Decode(Base64UrlDecode(parts[1]));
      if secret.None? then Failure(MissingSecret)
      else if Signature(codec, parts[0], parts[1], secret.value) != parts[2] then Failure(InvalidSignature)
      else match codec.jsonDecode(payload)
        // A payload that is not JSON decodes to null, and `null->exp < time()` holds.
        case None => Failure(Expired)
        case Some(p) => if p.exp < now then Failure(Expired) else Success(p)
  }

  /** Round trip: with the same secret, and up to and including the second the
      token expires, decoding an issued token gives back its payload. */
  lemma DecodeEncode(codec: Codec, secret: string, claims: Claims, now: int, expiresIn: int, later: int)
    requires var p := TokenPayload(claims, now, now + expiresIn); codec.jsonDecode(codec.jsonEncode(p)) == Some(p)
    requires later <= now + expiresIn
    ensures Encode(codec, Some(secret), claims, now, expiresIn).Success?
    ensures Decode(codec, Some(secret), Encode(codec, Some(secret), claims, now, expiresIn).value, later)
            == Success(TokenPayload(claims, now, now + expiresIn))
  {
  }

  /** A token decoded after its `exp` second is refused as expired. */
  lemma ExpiredTokenRefused(codec: Codec, secret: string, claims: Claims, now: int, expiresIn: int, later: int)
    requires var p := TokenPayload(claims, now, now + expiresIn); codec.jsonDecode(codec.jsonEncode(p)) == Some(p)
    requires later > now + expiresIn
    ensures Decode(codec, Some(secret), Encode(codec, Some(secret), claims, now, expiresIn).value, later)
            == Failure(Expired)
  {
  }

  /** The expiry test is `exp < now`: a token is still accepted in the very second
      named by its `exp`, which section 4.1.4 of RFC 7519 would already refuse. */
  lemma AcceptedAtExpiry(codec: Codec, secret: string, claims: Claims, now: int)
    requires var p := TokenPayload(claims, now, now); codec.jsonDecode(codec.jsonEncode(p)) == Some(p)
    ensures Decode(codec, Some(secret), Encode(codec, Some(secret), claims, now, 0).value, now).Success?
  {
    DecodeEncode(codec, secret, claims, now, 0, now);
  }
}
