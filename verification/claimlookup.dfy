/** JwtDebugHelper: reading the user id and role out of a principal by trying a fixed
    list of claim types in order of preference. */
module ClaimLookup {
  import opened Wrappers
  import opened Text
  import opened Claims
  import Sequences
  import Entities
  import TokenService

  /** The claim types tried for the user id, most preferred first. */
  const UserIdClaimTypes: seq<String> := [SubName, NameIdentifierType, "sub", "user_id", "userId", "nameid"]

  /** The claim types tried for the role, most preferred first. */
  const RoleClaimTypes: seq<String> := ["role", RoleType, "roles", SubName + "_role"]

  /** The id one claim type yields: its first claim, when that is non-empty and parses
      as a 32-bit integer. */
  function UserIdFrom(p: Principal, claimType: String): (r: Option<int>)
    ensures r.Some? ==> IsInt32(r.value)
    ensures r.Some? <==> FindFirst(p, claimType).Some? && FindFirst(p, claimType).value.value != []
                         && ParseInt32(Some(FindFirst(p, claimType).value.value)).Some?
  {
    match FindFirst(p, claimType)
    case None => None
    case Some(c) => if c.value == [] then None else ParseInt32(Some(c.value))
  }

  /** The role one claim type yields: the value of its first claim, when non-empty. */
  function RoleFrom(p: Principal, claimType: String): (r: Option<String>)
    ensures r.Some? <==> FindFirst(p, claimType).Some? && FindFirst(p, claimType).value.value != []
    ensures r.Some? ==> r.value == FindFirst(p, claimType).value.value
  {
    match FindFirst(p, claimType)
    case None => None
    case Some(c) => if c.value == [] then None else Some(c.value)
  }

  /** The id from the first of `types` that yields one. */
  function FirstUserId(p: Principal, types: seq<String>): (r: Option<int>)
    ensures r.None? <==> forall i :: 0 <= i < |types| ==> UserIdFrom(p, types[i]).None?
    ensures r.Some? ==> exists i :: 0 <= i < |types| && UserIdFrom(p, types[i]) == r
                                    && forall j :: 0 <= j < i ==> UserIdFrom(p, types[j]).None?
  {
    Sequences.FirstSome(types, t => UserIdFrom(p, t))
  }

  /** `GetUserIdSafe(principal)`: the id from the first claim type that yields one; a
      type whose claim is missing, empty or not a number does not stop the search. */
  function GetUserIdSafe(principal: Option<Principal>): (r: Option<int>)
    ensures principal.None? ==> r.None?
    ensures r.Some? ==> IsInt32(r.value)
    ensures principal.Some? ==>
              (r.None? <==> forall i :: 0 <= i < |UserIdClaimTypes| ==> UserIdFrom(principal.value, UserIdClaimTypes[i]).None?)
    ensures r.Some? ==> exists i :: 0 <= i < |UserIdClaimTypes| && UserIdFrom(principal.value, UserIdClaimTypes[i]) == r
                                    && forall j :: 0 <= j < i ==> UserIdFrom(principal.value, UserIdClaimTypes[j]).None?
  {
    match principal
    case None => None
    case Some(p) => FirstUserId(p, UserIdClaimTypes)
  }

  /** The role from the first of `types` that yields one. */
  function FirstRole(p: Principal, types: seq<String>): (r: Option<String>)
    ensures r.None? <==> forall i :: 0 <= i < |types| ==> RoleFrom(p, types[i]).None?
    ensures r.Some? ==> exists i :: 0 <= i < |types| && RoleFrom(p, types[i]) == r
                                    && forall j :: 0 <= j < i ==> RoleFrom(p, types[j]).None?
  {
    Sequences.FirstSome(types, t => RoleFrom(p, t))
  }

  /** `GetUserRoleSafe(principal)`: the first non-empty value among the role claim types,
      taken as it is. */
  function GetUserRoleSafe(principal: Option<Principal>): (r: Option<String>)
    ensures principal.None? ==> r.None?
    ensures r.Some? ==> r.value != []
    ensures principal.Some? ==>
              (r.None? <==> forall i :: 0 <= i < |RoleClaimTypes| ==> RoleFrom(principal.value, RoleClaimTypes[i]).None?)
    ensures r.Some? ==> exists i :: 0 <= i < |RoleClaimTypes| && RoleFrom(principal.value, RoleClaimTypes[i]) == r
                                    && forall j :: 0 <= j < i ==> RoleFrom(principal.value, RoleClaimTypes[j]).None?
  {
    match principal
    case None => None
    case Some(p) => FirstRole(p, RoleClaimTypes)
  }

  /** A principal whose first "sub" claim is the decimal rendering of a 32-bit id yields that id. */
  lemma SubClaimGivesId(p: Principal, id: int)
    requires IsInt32(id)
    requires FindFirst(p, SubName).Some? && FindFirst(p, SubName).value.value == IntToString(id)
    ensures GetUserIdSafe(Some(p)) == Some(id)
  {
    ParseInt32OfIntToString(id);
    assert UserIdFrom(p, UserIdClaimTypes[0]) == Some(id);
  }

  /** The principal a validated token produces carries the mapped claims of the issued
      token, with "sub" renamed to the name-identifier type: the id is found there. */
  function IssuedPrincipal(id: int, u: Entities.Usuario, jti: String, now: int): Principal
  {
    InboundPrincipal(TokenService.IssuedClaims(id, u, jti, now))
  }

  lemma IssuedPrincipalClaims(id: int, u: Entities.Usuario, jti: String, now: int)
    ensures IssuedPrincipal(id, u, jti, now).claims ==
              [Claim(NameIdentifierType, IntToString(id)), Claim(NameType, u.nombre), Claim(EmailType, u.email),
               Claim(RoleType, u.tipoUsuario), Claim(JtiName, jti), Claim(IatName, IntToString(now))]
  {
  }

  /** When the first type yields nothing and the second yields an id, that id is the answer. */
  lemma FirstUserIdSecond(p: Principal, types: seq<String>, id: int)
    requires |types| >= 2 && UserIdFrom(p, types[0]).None? && UserIdFrom(p, types[1]) == Some(id)
    ensures FirstUserId(p, types) == Some(id)
  {
  }

  /** When the first type yields nothing and the second yields a role, that role is the answer. */
  lemma FirstRoleSecond(p: Principal, types: seq<String>, role: String)
    requires |types| >= 2 && RoleFrom(p, types[0]).None? && RoleFrom(p, types[1]) == Some(role)
    ensures FirstRole(p, types) == Some(role)
  {
    var r := FirstRole(p, types);
    assert r.Some?;
    var i :| 0 <= i < |types| && RoleFrom(p, types[i]) == r && forall j :: 0 <= j < i ==> RoleFrom(p, types[j]).None?;
    assert i == 1;
  }

  /** A claim type whose first letter, ignoring case, starts no claim type of the same
      length finds nothing. */
  lemma AbsentType(p: Principal, claimType: String)
    requires claimType != []
    requires forall i :: 0 <= i < |p.claims| ==> |p.claims[i].claimType| != |claimType|
                                                 || UpperChar(p.claims[i].claimType[0]) != UpperChar(claimType[0])
    ensures FindFirst(p, claimType).None?
  {
    forall i | 0 <= i < |p.claims| ensures !HasType(p.claims[i], claimType) {
      var t := p.claims[i].claimType;
      if |t| == |claimType| {
        assert ToUpperAscii(t)[0] != ToUpperAscii(claimType)[0];
      }
    }
  }

  /** With no "sub" claim left, the user id comes from the name-identifier claim. */
  lemma IdFromNameIdentifier(p: Principal, id: int)
    requires FindFirst(p, SubName).None? && UserIdFrom(p, NameIdentifierType) == Some(id)
    ensures GetUserIdSafe(Some(p)) == Some(id)
  {
    assert UserIdClaimTypes[0] == SubName && UserIdClaimTypes[1] == NameIdentifierType;
    FirstUserIdSecond(p, UserIdClaimTypes, id);
  }

  /** Claims in the issued order, after the inbound map: the user id is found under the
      name-identifier type because no claim is still called "sub". */
  lemma IdentityClaimsUserId(p: Principal, id: int)
    requires IsInt32(id) && |p.claims| == 6
    requires p.claims[0] == Claim(NameIdentifierType, IntToString(id))
    requires p.claims[1].claimType == NameType && p.claims[2].claimType == EmailType
             && p.claims[3].claimType == RoleType && p.claims[4].claimType == JtiName && p.claims[5].claimType == IatName
    ensures GetUserIdSafe(Some(p)) == Some(id)
  {
    assert UpperChar(SubName[0]) == 'S';
    AbsentType(p, SubName);
    UserIdUnderNameIdentifier(p, id);
    IdFromNameIdentifier(p, id);
  }

  lemma UserIdUnderNameIdentifier(p: Principal, id: int)
    requires IsInt32(id) && |p.claims| >= 1 && p.claims[0] == Claim(NameIdentifierType, IntToString(id))
    ensures UserIdFrom(p, NameIdentifierType) == Some(id)
  {
    FindFirstHead(p.claims[0], p.claims[1..], NameIdentifierType);
    assert p.claims == [p.claims[0]] + p.claims[1..];
    ParseInt32OfIntToString(id);
    assert IntToString(id) != [] by {
      if id >= 0 { assert |NatToDecimal(id)| >= 1; }
    }
  }

  /** Claims in the issued order, after the inbound map: the role is found under the role
      type because no claim is still called "role". */
  lemma IdentityClaimsRole(p: Principal, role: String)
    requires role != [] && |p.claims| == 6
    requires p.claims[0].claimType == NameIdentifierType && p.claims[1].claimType == NameType
             && p.claims[2].claimType == EmailType && p.claims[3] == Claim(RoleType, role)
             && p.claims[4].claimType == JtiName && p.claims[5].claimType == IatName
    ensures GetUserRoleSafe(Some(p)) == Some(role)
  {
    AbsentType(p, "role");
    RoleAfterIdentity(p.claims[..3], p.claims[3..]);
    assert p.claims == p.claims[..3] + p.claims[3..];
    FirstRoleSecond(p, RoleClaimTypes, role);
  }

  /** The user id read back from the principal of an issued token is the id it was issued for. */
  lemma IssuedTokenUserId(id: int, u: Entities.Usuario, jti: String, now: int)
    requires IsInt32(id)
    ensures GetUserIdSafe(Some(IssuedPrincipal(id, u, jti, now))) == Some(id)
  {
    IssuedPrincipalClaims(id, u, jti, now);
    IdentityClaimsUserId(IssuedPrincipal(id, u, jti, now), id);
  }

  /** The role read back from the principal of an issued token is the user's type, when non-empty. */
  lemma IssuedTokenRole(id: int, u: Entities.Usuario, jti: String, now: int)
    requires u.tipoUsuario != []
    ensures GetUserRoleSafe(Some(IssuedPrincipal(id, u, jti, now))) == Some(u.tipoUsuario)
  {
    IssuedPrincipalClaims(id, u, jti, now);
    IdentityClaimsRole(IssuedPrincipal(id, u, jti, now), u.tipoUsuario);
  }

  /** None of the three identity claim types that precede the role is the role type. */
  lemma RoleAfterIdentity(before: seq<Claim>, after: seq<Claim>)
    requires |before| == 3 && before[0].claimType == NameIdentifierType && before[1].claimType == NameType
             && before[2].claimType == EmailType
    requires |after| > 0 && after[0].claimType == RoleType
    ensures FindFirst(Principal(before + after), RoleType) == Some(after[0])
  {
    assert ToUpperAscii(NameIdentifierType)[7] != ToUpperAscii(RoleType)[7] || |NameIdentifierType| != |RoleType|;
    assert ToUpperAscii(NameType)[7] != ToUpperAscii(RoleType)[7] || |NameType| != |RoleType|;
    assert ToUpperAscii(EmailType)[7] != ToUpperAscii(RoleType)[7] || |EmailType| != |RoleType|;
    FindFirstSkips(before, after, RoleType);
    FindFirstHead(after[0], after[1..], RoleType);
    assert after == [after[0]] + after[1..];
  }
}
