/** JwtAuthorizationAttribute: the filter in front of protected actions. It checks, in
    this order, the Authorization header, the token, and the role, and either publishes
    the principal or answers with a status and a message. */
module AuthorizationGate {
  import opened Wrappers
  import opened Text
  import opened Claims
  import Config
  import Entities
  import TokenService
  import ClaimLookup

  const BearerScheme: String := "Bearer"

  const MissingTokenMessage: String := "Token de autorización requerido"
  const InvalidTokenMessage: String := "Token inválido"
  const ForbiddenMessage: String := "No tiene permisos para esta operación"

  const Unauthorized: int := 401
  const Forbidden: int := 403

  /** The parsed `Authorization` header: a scheme and an optional parameter. */
  datatype AuthHeader = AuthHeader(scheme: String, parameter: Option<TokenService.TokenText>)

  /** What the filter leaves behind: a response (and the action does not run), the
      principal published on the request context, or the exception thrown by the
      token generator's constructor, which the filter does not catch. */
  datatype Decision =
    | Rejected(status: int, message: String)
    | Authorized(principal: Principal)
    | ConfigurationFailure(fault: TokenService.ConfigFault)

  /** The role test: with no roles listed every principal passes; otherwise the value of
      the first role claim must be one of them, compared ordinally. */
  predicate RoleAllowed(allowedRoles: seq<String>, p: Principal)
  {
    allowedRoles == [] || (FindFirst(p, RoleType).Some? && FindFirst(p, RoleType).value.value in allowedRoles)
  }

  predicate IsBearer(header: Option<AuthHeader>)
  {
    header.Some? && header.value.scheme == BearerScheme
  }

  /** `OnAuthorization`. The settings and the clock are the ones the token generator
      reads; `allowedRoles` is what the attribute was constructed with. */
  function OnAuthorization(allowedRoles: seq<String>, header: Option<AuthHeader>, cfg: Config.Settings, now: int): (d: Decision)
    ensures !IsBearer(header) ==> d == Rejected(Unauthorized, MissingTokenMessage)
    ensures d.ConfigurationFailure? <==> IsBearer(header) && TokenService.NewGenerator(cfg).Failure?
    ensures d.ConfigurationFailure? ==> d.fault == TokenService.NewGenerator(cfg).error
    ensures d.Authorized? ==>
              IsBearer(header) && TokenService.NewGenerator(cfg).Success?
              && TokenService.ValidateToken(TokenService.NewGenerator(cfg).value, header.value.parameter, now) == Some(d.principal)
              && RoleAllowed(allowedRoles, d.principal)
    ensures d.Rejected? ==> d.status in {Unauthorized, Forbidden}
    ensures d.Rejected? && d.status == Forbidden ==> d.message == ForbiddenMessage && allowedRoles != []
  {
    if !IsBearer(header) then Rejected(Unauthorized, MissingTokenMessage)
    else
      match TokenService.NewGenerator(cfg)
      case Failure(fault) => ConfigurationFailure(fault)
      case Success(g) =>
        match TokenService.ValidateToken(g, header.value.parameter, now)
        case None => Rejected(Unauthorized, InvalidTokenMessage)
        case Some(principal) =>
          if allowedRoles != [] && !RoleAllowed(allowedRoles, principal) then Rejected(Forbidden, ForbiddenMessage)
          else Authorized(principal)
  }

  // ---------------------------------------------------------------------------
  // Properties
  // ---------------------------------------------------------------------------

  /** Without a Bearer header the answer is the same whatever the settings, clock and
      roles: no generator is built and no token is looked at. The scheme is compared
      case-sensitively, so "bearer" is turned away too. */
  lemma HeaderCheckedFirst(roles: seq<String>, roles': seq<String>, header: Option<AuthHeader>,
                           cfg: Config.Settings, cfg': Config.Settings, now: int, now': int,
                           parameter: Option<TokenService.TokenText>)
    requires header.None? || header.value.scheme != BearerScheme
    ensures OnAuthorization(roles, header, cfg, now) == OnAuthorization(roles', header, cfg', now')
    ensures OnAuthorization(roles, Some(AuthHeader("bearer", parameter)), cfg, now) == Rejected(Unauthorized, MissingTokenMessage)
  {
  }

  /** A Bearer header with a token that fails validation, or with no token at all, gets
      401 "invalid" whatever roles are listed: roles are never examined. */
  lemma InvalidTokenIgnoresRoles(roles: seq<String>, roles': seq<String>, parameter: Option<TokenService.TokenText>,
                                 cfg: Config.Settings, now: int)
    requires TokenService.NewGenerator(cfg).Success?
    requires TokenService.ValidateToken(TokenService.NewGenerator(cfg).value, parameter, now).None?
    ensures OnAuthorization(roles, Some(AuthHeader(BearerScheme, parameter)), cfg, now) == Rejected(Unauthorized, InvalidTokenMessage)
    ensures OnAuthorization(roles, Some(AuthHeader(BearerScheme, parameter)), cfg, now)
            == OnAuthorization(roles', Some(AuthHeader(BearerScheme, parameter)), cfg, now)
    ensures OnAuthorization(roles, Some(AuthHeader(BearerScheme, None)), cfg, now) == Rejected(Unauthorized, InvalidTokenMessage)
  {
  }

  /** A configuration error surfaces as such for every Bearer request, never as a 401. */
  lemma ConfigurationErrorEscapes(roles: seq<String>, parameter: Option<TokenService.TokenText>, cfg: Config.Settings, now: int)
    requires TokenService.NewGenerator(cfg).Failure?
    ensures OnAuthorization(roles, Some(AuthHeader(BearerScheme, parameter)), cfg, now)
            == ConfigurationFailure(TokenService.NewGenerator(cfg).error)
  {
  }

  /** With no roles listed, a Bearer request is authorized exactly when its token validates,
      and the principal published is the validated one. */
  lemma EmptyRolesAcceptEveryValidToken(parameter: Option<TokenService.TokenText>, cfg: Config.Settings, now: int)
    requires TokenService.NewGenerator(cfg).Success?
    ensures var g := TokenService.NewGenerator(cfg).value;
            var d := OnAuthorization([], Some(AuthHeader(BearerScheme, parameter)), cfg, now);
            (d.Authorized? <==> TokenService.ValidateToken(g, parameter, now).Some?)
            && (d.Authorized? ==> Some(d.principal) == TokenService.ValidateToken(g, parameter, now))
  {
  }

  /** With roles listed, a validated principal whose first role claim is missing or not
      listed gets 403, and one whose role is listed is authorized. */
  lemma RolesDecideValidTokens(roles: seq<String>, parameter: Option<TokenService.TokenText>, cfg: Config.Settings, now: int)
    requires roles != [] && TokenService.NewGenerator(cfg).Success?
    requires TokenService.ValidateToken(TokenService.NewGenerator(cfg).value, parameter, now).Some?
    ensures var p := TokenService.ValidateToken(TokenService.NewGenerator(cfg).value, parameter, now).value;
            var d := OnAuthorization(roles, Some(AuthHeader(BearerScheme, parameter)), cfg, now);
            (FindFirst(p, RoleType).None? || FindFirst(p, RoleType).value.value !in roles ==> d == Rejected(Forbidden, ForbiddenMessage))
            && (FindFirst(p, RoleType).Some? && FindFirst(p, RoleType).value.value in roles ==> d == Authorized(p))
  {
  }

  /** End to end: a token issued under a working configuration with an ASCII secret,
      presented before it expires by a user whose type is allowed, is authorized; the
      published principal carries the user's id, which reads back as the issued id. */
  lemma IssuedTokenAuthorized(cfg: Config.Settings, id: int, u: Entities.Usuario, jti: String, issuedAt: int, now: int,
                              roles: seq<String>)
    requires TokenService.NewGenerator(cfg).Success?
    requires TokenService.IsAscii(TokenService.NewGenerator(cfg).value.secretKey)
    requires now < issuedAt + TokenService.NewGenerator(cfg).value.expirationHours * TokenService.SecondsPerHour
    requires roles == [] || u.tipoUsuario in roles
    requires IsInt32(id)
    ensures var token := TokenService.Issue(TokenService.NewGenerator(cfg).value, id, u, jti, issuedAt);
            OnAuthorization(roles, Some(AuthHeader(BearerScheme, Some(token))), cfg, now)
            == Authorized(ClaimLookup.IssuedPrincipal(id, u, jti, issuedAt))
    ensures ClaimLookup.GetUserIdSafe(Some(ClaimLookup.IssuedPrincipal(id, u, jti, issuedAt))) == Some(id)
  {
    var g := TokenService.NewGenerator(cfg).value;
    TokenService.IssueThenValidate(g, id, u, jti, issuedAt, now);
    var p := ClaimLookup.IssuedPrincipal(id, u, jti, issuedAt);
    ClaimLookup.IssuedPrincipalClaims(id, u, jti, issuedAt);
    ClaimLookup.RoleAfterIdentity(p.claims[..3], p.claims[3..]);
    assert p.claims == p.claims[..3] + p.claims[3..];
    ClaimLookup.IssuedTokenUserId(id, u, jti, issuedAt);
  }

  /** With a secret outside ASCII, every token the service issues is turned away as
      invalid, even before it expires and whatever the roles. */
  lemma NonAsciiSecretLocksOut(cfg: Config.Settings, id: int, u: Entities.Usuario, jti: String, issuedAt: int, now: int,
                               roles: seq<String>)
    requires TokenService.NewGenerator(cfg).Success?
    requires !TokenService.IsAscii(TokenService.NewGenerator(cfg).value.secretKey)
    ensures var token := TokenService.Issue(TokenService.NewGenerator(cfg).value, id, u, jti, issuedAt);
            OnAuthorization(roles, Some(AuthHeader(BearerScheme, Some(token))), cfg, now)
            == Rejected(Unauthorized, InvalidTokenMessage)
  {
    TokenService.KeysAgree(TokenService.NewGenerator(cfg).value.secretKey);
  }
}
