/** TokenGenerator: the JWT settings check run by its constructor, the claim set and
    lifetime of the tokens it issues, and its fail-closed validation. HMAC-SHA256 and
    the compact serialisation are symbolic: a signature is the pair of key bytes and
    payload it was computed over, so it verifies exactly under the key that made it and
    over the payload it was made for. */
module TokenService {
  import opened Wrappers
  import opened Text
  import opened Claims
  import Config
  import Entities

  type Byte = b: int | 0 <= b < 256

  // ---------------------------------------------------------------------------
  // Key bytes
  // ---------------------------------------------------------------------------

  predicate IsAsciiChar(c: char)
  {
    (c as int) < 0x80
  }

  predicate IsAscii(s: String)
  {
    forall i :: 0 <= i < |s| ==> IsAsciiChar(s[i])
  }

  /** The UTF-8 bytes of one Unicode scalar value. */
  function Utf8Char(c: char): (r: seq<Byte>)
    ensures 1 <= |r| <= 4
    ensures |r| == 1 <==> IsAsciiChar(c)
    ensures IsAsciiChar(c) ==> r == [c as int]
    ensures !IsAsciiChar(c) ==> r[0] >= 0x80
  {
    var n := c as int;
    if n < 0x80 then [n]
    else if n < 0x800 then [0xC0 + n / 0x40, 0x80 + n % 0x40]
    else if n < 0x10000 then [0xE0 + n / 0x1000, 0x80 + (n / 0x40) % 0x40, 0x80 + n % 0x40]
    else [0xF0 + n / 0x40000, 0x80 + (n / 0x1000) % 0x40, 0x80 + (n / 0x40) % 0x40, 0x80 + n % 0x40]
  }

  /** `Encoding.UTF8.GetBytes`: the signing key. */
  function Utf8(s: String): seq<Byte>
  {
    if s == [] then [] else Utf8Char(s[0]) + Utf8(s[1..])
  }

  /** The bytes `Encoding.ASCII` writes for one character: the character itself when it
      is ASCII, otherwise the replacement '?' once per UTF-16 code unit, so twice for
      an astral character, which C# holds as a surrogate pair. */
  function AsciiChar(c: char): (r: seq<Byte>)
    ensures |r| == if IsAstral(c) then 2 else 1
    ensures IsAsciiChar(c) ==> r == [c as int]
    ensures !IsAsciiChar(c) ==> forall i :: 0 <= i < |r| ==> r[i] == '?' as int
  {
    if IsAsciiChar(c) then [c as int]
    else if IsAstral(c) then ['?' as int, '?' as int]
    else ['?' as int]
  }

  /** `Encoding.ASCII.GetBytes`: the validation key. One byte per UTF-16 code unit, all
      of them ASCII; ASCII text keeps its characters. */
  function Ascii(s: String): (r: seq<Byte>)
    ensures |r| == Utf16Length(s)
    ensures forall i :: 0 <= i < |r| ==> r[i] < 0x80
    ensures IsAscii(s) ==> |r| == |s| && forall i :: 0 <= i < |s| ==> r[i] == s[i] as int
  {
    if s == [] then [] else AsciiChar(s[0]) + Ascii(s[1..])
  }

  /** An astral character becomes two '?' bytes, one per half of its surrogate pair. */
  lemma AstralAsciiKey()
    ensures Ascii("\U{1F511}") == ['?' as int, '?' as int]
  {
  }

  /** Text that is not ASCII has a UTF-8 byte at or above 0x80. */
  lemma {:induction false} Utf8HasHighByte(s: String)
    requires !IsAscii(s)
    ensures exists i :: 0 <= i < |Utf8(s)| && Utf8(s)[i] >= 0x80
  {
    if IsAsciiChar(s[0]) {
      assert !IsAscii(s[1..]) by {
        var k :| 0 <= k < |s| && !IsAsciiChar(s[k]);
        assert s[1..][k - 1] == s[k];
      }
      Utf8HasHighByte(s[1..]);
      var i :| 0 <= i < |Utf8(s[1..])| && Utf8(s[1..])[i] >= 0x80;
      assert Utf8(s)[i + 1] == Utf8(s[1..])[i];
    } else {
      assert Utf8(s)[0] == Utf8Char(s[0])[0];
    }
  }

  /** UTF-8 never uses fewer bytes than characters, and uses exactly as many only for ASCII text. */
  lemma {:induction false} Utf8Length(s: String)
    ensures |Utf8(s)| >= |s|
    ensures |Utf8(s)| == |s| <==> IsAscii(s)
  {
    if s != [] {
      Utf8Length(s[1..]);
      if IsAscii(s) {
        assert IsAscii(s[1..]) by {
          forall i | 0 <= i < |s[1..]| ensures IsAsciiChar(s[1..][i]) {
            assert s[1..][i] == s[i + 1];
          }
        }
      } else if IsAsciiChar(s[0]) {
        assert !IsAscii(s[1..]) by {
          var k :| 0 <= k < |s| && !IsAsciiChar(s[k]);
          assert s[1..][k - 1] == s[k];
        }
      }
    }
  }

  /** On ASCII text the two encodings give the same bytes. */
  lemma {:induction false} Utf8OfAscii(s: String)
    requires IsAscii(s)
    ensures Utf8(s) == Ascii(s)
  {
    if s != [] {
      assert IsAscii(s[1..]) by {
        forall i | 0 <= i < |s[1..]| ensures IsAsciiChar(s[1..][i]) {
          assert s[1..][i] == s[i + 1];
        }
      }
      Utf8OfAscii(s[1..]);
    }
  }

  /** The key that signs and the key that validates coincide exactly for ASCII secrets. */
  lemma KeysAgree(secret: String)
    ensures Utf8(secret) == Ascii(secret) <==> IsAscii(secret)
  {
    if IsAscii(secret) {
      Utf8OfAscii(secret);
    } else {
      Utf8HasHighByte(secret);
    }
  }

  // ---------------------------------------------------------------------------
  // Tokens
  // ---------------------------------------------------------------------------

  /** The registered times are Unix seconds. */
  datatype Payload = Payload(claims: seq<Claim>, issuer: Option<String>, audience: Option<String>, expires: Option<int>)

  /** An HMAC-SHA256 signature, kept as the key bytes and payload it covers. */
  datatype Signature = Hs256(key: seq<Byte>, payload: Payload)

  datatype Jwt = Jwt(payload: Payload, signature: Signature)

  /** A token string: a well-formed compact JWT, or any other text. */
  datatype TokenText = Compact(jwt: Jwt) | Malformed(text: String)

  function Sign(key: seq<Byte>, payload: Payload): Signature
  {
    Hs256(key, payload)
  }

  // ---------------------------------------------------------------------------
  // Construction
  // ---------------------------------------------------------------------------

  datatype Generator = Generator(secretKey: String, issuer: String, audience: String, expirationHours: int)

  /** The five configuration checks, each with its own exception message. */
  datatype ConfigFault = SecretNotConfigured | SecretTooShort | IssuerNotConfigured | AudienceNotConfigured | ExpirationNotPositive

  /** `ValidateJwtConfiguration` over the values read: the first failing check decides. */
  function CheckSettings(secret: Option<String>, issuer: Option<String>, audience: Option<String>, hours: int): (r: Result<Generator, ConfigFault>)
    ensures r.Success? <==> !IsNullOrEmpty(secret) && Utf16Length(secret.value) >= 32 && !IsNullOrEmpty(issuer)
                            && !IsNullOrEmpty(audience) && hours > 0
    ensures r.Success? ==> r.value == Generator(secret.value, issuer.value, audience.value, hours)
    ensures IsNullOrEmpty(secret) ==> r == Failure(SecretNotConfigured)
    ensures !IsNullOrEmpty(secret) && Utf16Length(secret.value) < 32 ==> r == Failure(SecretTooShort)
    ensures !IsNullOrEmpty(secret) && Utf16Length(secret.value) >= 32 && IsNullOrEmpty(issuer) ==> r == Failure(IssuerNotConfigured)
    ensures !IsNullOrEmpty(secret) && Utf16Length(secret.value) >= 32 && !IsNullOrEmpty(issuer) && IsNullOrEmpty(audience)
            ==> r == Failure(AudienceNotConfigured)
  {
    if IsNullOrEmpty(secret) then Failure(SecretNotConfigured)
    else if Utf16Length(secret.value) < 32 then Failure(SecretTooShort)
    else if IsNullOrEmpty(issuer) then Failure(IssuerNotConfigured)
    else if IsNullOrEmpty(audience) then Failure(AudienceNotConfigured)
    else if hours <= 0 then Failure(ExpirationNotPositive)
    else Success(Generator(secret.value, issuer.value, audience.value, hours))
  }

  /** `new TokenGenerator()`: reads the settings, then checks them. */
  function NewGenerator(cfg: Config.Settings): (r: Result<Generator, ConfigFault>)
    ensures r.Failure? ==> r.error in {SecretNotConfigured, SecretTooShort, ExpirationNotPositive}
    ensures r.Success? <==> Config.SecretErrors(Config.JwtSecretKey(cfg)) == [] && Config.JwtExpirationHours(cfg) > 0
    ensures r.Success? ==> r.value.secretKey == Config.JwtSecretKey(cfg).value
                           && r.value.issuer == Config.JwtIssuer(cfg) && r.value.audience == Config.JwtAudience(cfg)
                           && r.value.expirationHours == Config.JwtExpirationHours(cfg)
  {
    Config.JwtDefaults(cfg);
    CheckSettings(Config.JwtSecretKey(cfg), Some(Config.JwtIssuer(cfg)), Some(Config.JwtAudience(cfg)),
                  Config.JwtExpirationHours(cfg))
  }

  /** A configuration that passes the startup check and has a positive lifetime builds a generator. */
  lemma ValidatedConfigurationBuildsGenerator(cfg: Config.Settings)
    requires Config.ValidateConfiguration(cfg).Pass? && Config.JwtExpirationHours(cfg) > 0
    ensures NewGenerator(cfg).Success?
  {
    assert Config.ConfigurationErrors(cfg) == [];
  }

  // ---------------------------------------------------------------------------
  // Issue
  // ---------------------------------------------------------------------------

  const SecondsPerHour := 3600

  /** The claims issued for a user, in the order they are added. */
  function IssuedClaims(id: int, u: Entities.Usuario, jti: String, now: int): seq<Claim>
  {
    [Claim(SubName, IntToString(id)), Claim(UniqueNameName, u.nombre), Claim(EmailName, u.email),
     Claim("role", u.tipoUsuario), Claim(JtiName, jti), Claim(IatName, IntToString(now))]
  }

  /** `GenerateTokenJwt`: the user's claims with the configured issuer and audience,
      expiring `expirationHours` after `now`, signed with the UTF-8 bytes of the
      secret. The fresh `jti` and the clock are parameters. */
  function Issue(g: Generator, id: int, u: Entities.Usuario, jti: String, now: int): (t: TokenText)
    ensures t.Compact?
    ensures t.jwt.payload.claims == IssuedClaims(id, u, jti, now)
    ensures t.jwt.payload.issuer == Some(g.issuer) && t.jwt.payload.audience == Some(g.audience)
    ensures t.jwt.payload.expires == Some(now + g.expirationHours * SecondsPerHour)
    ensures t.jwt.signature == Sign(Utf8(g.secretKey), t.jwt.payload)
  {
    var payload := Payload(IssuedClaims(id, u, jti, now), Some(g.issuer), Some(g.audience),
                           Some(now + g.expirationHours * SecondsPerHour));
    Compact(Jwt(payload, Sign(Utf8(g.secretKey), payload)))
  }

  // ---------------------------------------------------------------------------
  // Validate
  // ---------------------------------------------------------------------------

  /** The checks the validation parameters ask for, all at once: a signature made with
      the key over this very payload, the configured issuer and audience, an expiry,
      and `now` before it with no clock skew. */
  predicate Accepts(key: seq<Byte>, issuer: String, audience: String, jwt: Jwt, now: int)
  {
    && jwt.signature == Sign(key, jwt.payload)
    && jwt.payload.issuer == Some(issuer)
    && jwt.payload.audience == Some(audience)
    && jwt.payload.expires.Some?
    && now < jwt.payload.expires.value
  }

  /** `ValidateToken(token)`: the principal built from the token's claims, or `null` for
      a missing or malformed token and for every failed check; it never throws. The key
      is the ASCII encoding of the secret. */
  function ValidateToken(g: Generator, token: Option<TokenText>, now: int): (r: Option<Principal>)
    ensures r.Some? <==> token.Some? && token.value.Compact?
                         && Accepts(Ascii(g.secretKey), g.issuer, g.audience, token.value.jwt, now)
    ensures r.Some? ==> r.value == InboundPrincipal(token.value.jwt.payload.claims)
  {
    match token
    case None => None
    case Some(Malformed(_)) => None
    case Some(Compact(jwt)) =>
      if jwt.signature != Sign(Ascii(g.secretKey), jwt.payload) then None
      else if jwt.payload.expires.None? then None
      else if jwt.payload.expires.value <= now then None
      else if jwt.payload.audience != Some(g.audience) then None
      else if jwt.payload.issuer != Some(g.issuer) then None
      else Some(InboundPrincipal(jwt.payload.claims))
  }

  /** `DecodeTokenWithoutValidation(token)`: reads any well-formed token, whatever its
      key, issuer or lifetime, and gives `null` instead of throwing otherwise. */
  function DecodeTokenWithoutValidation(token: Option<TokenText>): (r: Option<Jwt>)
    ensures r.Some? <==> token.Some? && token.value.Compact?
    ensures r.Some? ==> r.value == token.value.jwt
  {
    match token
    case Some(Compact(jwt)) => Some(jwt)
    case _ => None
  }

  // ---------------------------------------------------------------------------
  // Properties
  // ---------------------------------------------------------------------------

  /** Issuing and then validating with the same generator before expiry gives back the
      issued claims, through the inbound map, exactly when the secret is ASCII: for any
      other secret the UTF-8 signing key and the ASCII validation key differ. */
  lemma IssueThenValidate(g: Generator, id: int, u: Entities.Usuario, jti: String, issuedAt: int, now: int)
    requires g.expirationHours > 0
    requires now < issuedAt + g.expirationHours * SecondsPerHour
    ensures ValidateToken(g, Some(Issue(g, id, u, jti, issuedAt)), now).Some? <==> IsAscii(g.secretKey)
    ensures IsAscii(g.secretKey) ==>
              ValidateToken(g, Some(Issue(g, id, u, jti, issuedAt)), now) == Some(InboundPrincipal(IssuedClaims(id, u, jti, issuedAt)))
  {
    KeysAgree(g.secretKey);
  }

  /** An issued token stops validating once its lifetime has passed. */
  lemma IssuedTokenExpires(g: Generator, id: int, u: Entities.Usuario, jti: String, issuedAt: int, now: int)
    requires issuedAt + g.expirationHours * SecondsPerHour <= now
    ensures ValidateToken(g, Some(Issue(g, id, u, jti, issuedAt)), now).None?
  {
  }

  /** A token only validates under the generator whose secret signed it: changing the
      payload after signing, or signing with other key bytes, is always rejected. */
  lemma ValidationNeedsTheKey(g: Generator, jwt: Jwt, now: int)
    requires jwt.signature.key != Ascii(g.secretKey) || jwt.signature.payload != jwt.payload
    ensures ValidateToken(g, Some(Compact(jwt)), now).None?
  {
  }

  /** Decoding without validation reads the issued payload back for every token issued,
      and for every token that validates it reads the payload whose claims made the principal. */
  lemma DecodeReadsIssued(g: Generator, id: int, u: Entities.Usuario, jti: String, issuedAt: int, token: Option<TokenText>, now: int)
    ensures DecodeTokenWithoutValidation(Some(Issue(g, id, u, jti, issuedAt))).Some?
    ensures DecodeTokenWithoutValidation(Some(Issue(g, id, u, jti, issuedAt))).value.payload.claims
            == IssuedClaims(id, u, jti, issuedAt)
    ensures ValidateToken(g, token, now).Some? ==>
              DecodeTokenWithoutValidation(token).Some?
              && ValidateToken(g, token, now).value == InboundPrincipal(DecodeTokenWithoutValidation(token).value.payload.claims)
  {
  }
}
