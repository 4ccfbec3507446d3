/** Claims and claim principals: the `ClaimTypes` and `JwtRegisteredClaimNames`
    constants the core uses, `ClaimsPrincipal.FindFirst`, and the inbound claim-type
    map the token handler applies when it turns a token's claims into a principal. */
module Claims {
  import opened Wrappers
  import opened Text
  import Sequences

  datatype Claim = Claim(claimType: String, value: String)

  /** A `ClaimsPrincipal` reduced to its claims, in the order they were added. */
  datatype Principal = Principal(claims: seq<Claim>)

  // `System.Security.Claims.ClaimTypes`
  const RoleType: String := "http://schemas.microsoft.com/ws/2008/06/identity/claims/role"
  const NameIdentifierType: String := "http://schemas.xmlsoap.org/ws/2005/05/identity/claims/nameidentifier"
  const NameType: String := "http://schemas.xmlsoap.org/ws/2005/05/identity/claims/name"
  const EmailType: String := "http://schemas.xmlsoap.org/ws/2005/05/identity/claims/emailaddress"

  // `JwtRegisteredClaimNames`
  const SubName: String := "sub"
  const UniqueNameName: String := "unique_name"
  const EmailName: String := "email"
  const JtiName: String := "jti"
  const IatName: String := "iat"

  /** `FindFirst` compares claim types ordinally, ignoring case. */
  predicate HasType(c: Claim, claimType: String)
  {
    EqualsIgnoreCase(c.claimType, claimType)
  }

  /** `principal.FindFirst(type)`: the earliest claim of that type. */
  function FindFirst(p: Principal, claimType: String): (r: Option<Claim>)
    ensures r.None? <==> forall i :: 0 <= i < |p.claims| ==> !HasType(p.claims[i], claimType)
    ensures r.Some? ==> exists i :: 0 <= i < |p.claims| && p.claims[i] == r.value
                                    && HasType(p.claims[i], claimType)
                                    && forall j :: 0 <= j < i ==> !HasType(p.claims[j], claimType)
  {
    match Sequences.FirstIndex(p.claims, c => HasType(c, claimType))
    case None => None
    case Some(i) => Some(p.claims[i])
  }

  /** Claims of other types in front of a list do not change what `FindFirst` finds in it. */
  lemma FindFirstSkips(before: seq<Claim>, after: seq<Claim>, claimType: String)
    requires forall i :: 0 <= i < |before| ==> !HasType(before[i], claimType)
    ensures FindFirst(Principal(before + after), claimType) == FindFirst(Principal(after), claimType)
  {
    Sequences.FirstIndexSkips(before, after, c => HasType(c, claimType));
  }

  /** A claim of the wanted type at the head of the list is the one found. */
  lemma FindFirstHead(c: Claim, rest: seq<Claim>, claimType: String)
    requires HasType(c, claimType)
    ensures FindFirst(Principal([c] + rest), claimType) == Some(c)
  {
  }

  // ---------------------------------------------------------------------------
  // Inbound claim-type map
  // ---------------------------------------------------------------------------

  /** The default inbound map of the token handler, limited to the six short names this
      code issues or reads: "role" and "roles" become `ClaimTypes.Role`, "sub" and
      "nameid" become `ClaimTypes.NameIdentifier`, "unique_name" becomes
      `ClaimTypes.Name`, "email" becomes `ClaimTypes.Email`. The real map also renames
      other short names ("given_name", "family_name", "upn", "groups" and more); none of
      them is issued here, and the model passes every name outside the six through. */
  function InboundType(t: String): (r: String)
    ensures r == RoleType <==> t in {"role", "roles", RoleType}
    ensures r == NameIdentifierType <==> t in {"sub", "nameid", NameIdentifierType}
    ensures r == NameType <==> t in {"unique_name", NameType}
    ensures r == EmailType <==> t in {"email", EmailType}
    ensures t !in {"role", "roles", "sub", "nameid", "unique_name", "email"} ==> r == t
  {
    if t == "role" || t == "roles" then RoleType
    else if t == "sub" || t == "nameid" then NameIdentifierType
    else if t == "unique_name" then NameType
    else if t == "email" then EmailType
    else t
  }

  /** The principal the handler builds from a token's claims: same values, same order,
      types passed through the inbound map. */
  function InboundPrincipal(claims: seq<Claim>): (p: Principal)
    ensures |p.claims| == |claims|
    ensures forall i :: 0 <= i < |claims| ==>
              p.claims[i] == Claim(InboundType(claims[i].claimType), claims[i].value)
  {
    Principal(Sequences.MapSeq(claims, (c: Claim) => Claim(InboundType(c.claimType), c.value)))
  }
}
