# apiSurvey core in Dafny

This project models the logic under the apiSurvey Web API. The API is an ASP.NET
service over Entity Framework. Advisors submit customer-service surveys through it,
administrators create surveys and manage branches, and reports count the answers.
The model is functional. The database is an immutable `Store` of tables. Every
operation is a pure function that returns the new store, or an error with the store
left as it was.

| module (file) | models |
|---|---|
| `Wrappers` (wrappers.dfy) | `Option`, `Result`, `Outcome` |
| `Text` (text.dfy) | `string.IsNullOrEmpty`, `Trim`, `ToUpper`, `Contains`, ordinal order, `int.TryParse`, `bool.TryParse`, `ToString("D6")` |
| `Sequences` (sequences.dfy) | first-match search, `Where`, `Count`, `SelectMany`, `OrderBy` |
| `Config` (config.dfy) | `ConfigHelper`: settings lookups with defaults, JWT settings, `ValidateConfiguration` |
| `Claims` (claims.dfy) | `ClaimsPrincipal.FindFirst` and the token handler's inbound claim-type map |
| `TokenService` (tokens.dfy) | `TokenGenerator`: constructor checks, `GenerateTokenJwt`, `ValidateToken`, `DecodeTokenWithoutValidation` |
| `ClaimLookup` (claimlookup.dfy) | `JwtDebugHelper.GetUserIdSafe`, `GetUserRoleSafe` |
| `AuthorizationGate` (gate.dfy) | `JwtAuthorizationAttribute.OnAuthorization` |
| `Entities` (entities.dfy) | the entity classes of `Model.cs`, with defaults, annotations and the column constraints a save meets |
| `Store` (store.dfy) | `OnModelCreating` of `Data.cs`: unique indices, foreign keys, cascades, `SaveChanges` |
| `Requests` (requests.dfy) | request records of `DataAPI.cs` and their validation annotations |
| `UserService` (users.dfy) | login, registration and the user listing of `UsuarioService` |
| `SurveyService` (surveys.dfy) | `ResponderEncuesta`, `GenerarNumeroSolicitud`, `CrearEncuesta`, `ObtenerEncuestaCompleta` |
| `BranchService` (branches.dfy) | `SucursalService` |
| `ReportService` (reports.dfy) | the integer counts and filters of `ReporteService` |

Conventions:

- **Nulls.** A C# `null` is `None`. `Option<String>` stands for a nullable string.
- **The store.** Each table maps ids to rows and holds the next identity value. A
  saved insert takes the next id; a refused one leaves the counter where it was (see
  "Left out" for the gaps the database leaves instead). A query without `ORDER BY` reads rows in id order.
  `OrderBy` is an insertion sort of that read. The database leaves the order of rows
  with equal keys unspecified, and no contract states one. `Consistent` is the store
  invariant. It holds the unique indices, the foreign keys and the column constraints.
- **Saving.** The context turns validation on save off (`ValidateOnSaveEnabled =
  false`, apiSurvey/Models/Data.cs:25). The data annotations are therefore not checked on a
  save: a blank name, a malformed e-mail or a branch code that trims to nothing is
  written as it is. Only the database refuses a row. Its schema is not in the
  source. The model assumes the schema Code First derives from the same classes: a
  `[StringLength(n)]` column holds at most `n` characters, and a `[Required]` column
  is NOT NULL. The request classes carry the same annotations; `Requests` states
  them, and lemmas such as `ValidRegistrationSaves` relate them to the saves.
- **Transactions.** A service operation's failure is a `Failure` value, and the store
  it leaves has the rows it had before. The rollback in the source restores rows, not
  identity values: the database does not hand out again an id used up by a failed or
  rolled-back insert, and the model does not track those.
- **Side inputs.** The clock, the fresh `jti`, password hashing and verification, and
  whether a raw SQL query throws are parameters. HMAC signing is a symbolic term
  `Sign(key, payload)` that verifies only with the same key bytes and payload.
- **Signing keys.** The secret is encoded as UTF-8 to sign and as ASCII to validate.
  So an issued token validates only when the secret is ASCII (`IssueThenValidate`,
  `NonAsciiSecretLocksOut`).
- **Request numbers.** `GenerarNumeroSolicitud` is modelled with the SQL `CAST` of the
  last six characters. A suffix that does not convert makes the query throw, which
  falls back to the timestamp form.
- **EF null semantics.** A lookup by a `null` request number finds a header with no
  number.
- **Behaviour of the code a reader might not expect.**
  - `ResponderEncuesta` does not check that an answered question or option belongs
    to the survey. Its duplicate-response pre-check is commented out, so only the
    unique index on (survey, advisor) rejects a second response.
  - `ValidarUsuario` reads the user with raw SQL into a `UsuarioDto`. Its columns
    `tipo_usuario` and `fecha_creacion` match no property of that DTO. The user it
    returns therefore has no type and the default creation date
    (`RegisteredUserCanLogIn`).
  - `CrearSucursal` compares the code as sent, untrimmed and not upper-cased, before
    normalising it. A variant of a stored code in letter case or leading blanks
    then fails at the unique index instead (`CaseVariantReachesIndex`). Trailing
    spaces alone are caught by the pre-check, since SQL's `=` ignores them
    (`TrailingBlankCodeCaught`).
- **String equality in SQL.** SQL Server pads the shorter string with spaces before
  comparing, under every collation, so trailing spaces never decide an `=` or a
  unique index. The lookups by e-mail, branch code and request number and the unique
  indices on e-mail and branch code compare `Text.SqlKey`, the string without its
  trailing spaces. Otherwise comparison is ordinal, as under a binary collation.
- **Configuration keys.** `AppSettings[key]` and `ConnectionStrings[name]` match keys
  ignoring letter case, and a later element with a key replaces an earlier one.

## Model

| member | source | states |
|---|---|---|
| Config.Lookup | apiSurvey/Logic/ConfigHelper.cs:18-21 | nothing exactly when no element has the key in any letter case; otherwise the value of the last element that has it |
| Config.LastMatchExists | apiSurvey/Logic/ConfigHelper.cs:18-21 | when some element has the key, one of them is the last, so a found value is an element's value |
| Config.GetAppSetting | apiSurvey/Logic/ConfigHelper.cs:18-21 | `null` exactly when no `appSettings` key matches ignoring case; otherwise the value of the last matching element |
| Config.KeyCaseIgnored | apiSurvey/Logic/ConfigHelper.cs:18-21 | keys differing only in letter case read the same app setting and the same connection string |
| Config.SecretKeyCaseIgnored | apiSurvey/Logic/ConfigHelper.cs:63 | a file that spells the key `jwtSecretKey` still supplies `JwtSecretKey` |
| Config.GetAppSettingOr | apiSurvey/Logic/ConfigHelper.cs:26-30 | the default replaces exactly a missing or empty value; any other value comes back unchanged |
| Config.GetAppSettingInt | apiSurvey/Logic/ConfigHelper.cs:35-39 | the parsed 32-bit value when parsing succeeds, the default otherwise |
| Config.GetAppSettingBool | apiSurvey/Logic/ConfigHelper.cs:44-48 | the parsed boolean when parsing succeeds, the default otherwise |
| Config.AppSettingIntReadsBack | apiSurvey/Logic/ConfigHelper.cs:35-39 | a `ToString()` of a 32-bit number in the last element with the key reads back as that number; a missing key gives the default |
| Config.AppSettingBoolReadsBack | apiSurvey/Logic/ConfigHelper.cs:44-48 | "true"/"false" in any letter case, in the last element with the key, reads back; a missing key gives the default |
| Config.GetConnectionString | apiSurvey/Logic/ConfigHelper.cs:53-57 | `null` exactly when no connection string has the name in any letter case; otherwise the last one that has it |
| Config.JwtDefaults | apiSurvey/Logic/ConfigHelper.cs:63-66 | issuer and audience default to "services" and "state" and are never empty; the lifetime defaults to 24; the secret has no default |
| Config.SecretErrors | apiSurvey/Logic/ConfigHelper.cs:97-101 | a null secret gives only "not configured"; an empty one gives both errors; 1 to 31 UTF-16 code units give only the length error |
| Config.AstralSecretPasses | apiSurvey/Logic/ConfigHelper.cs:100 | `Length` counts code units: sixteen characters outside the Basic Multilingual Plane pass the 32-character check |
| Config.ConfigurationErrors | apiSurvey/Logic/ConfigHelper.cs:95-106 | a missing connection string is always reported; no error at all exactly when the secret has 32 or more UTF-16 code units and the connection string is set |
| Config.ValidateConfiguration | apiSurvey/Logic/ConfigHelper.cs:93-111 | fails exactly when an error was collected, with a message listing every error in check order |
| Claims.FindFirst | apiSurvey/Logic/JwtDebugHelper.cs:53-56 | nothing exactly when no claim has the type (ignoring case); otherwise a claim of the principal |
| Claims.FindFirstSkips | apiSurvey/Logic/JwtDebugHelper.cs:53-64 | claims of other types in front do not change what is found |
| Claims.InboundType | apiSurvey/Logic/TokenGenerator.cs:131-135 | the handler's inbound map limited to the six short names this code issues or reads: "role"/"roles", "sub"/"nameid", "unique_name" and "email" map to the long claim types, each exactly; every other type passes through |
| Claims.InboundPrincipal | apiSurvey/Logic/TokenGenerator.cs:131-135 | the principal keeps the token's claims, values and order, with mapped types |
| TokenService.AsciiChar | apiSurvey/Logic/TokenGenerator.cs:116 | an ASCII character is kept; any other becomes one '?' per UTF-16 code unit, two for a surrogate pair |
| TokenService.Ascii | apiSurvey/Logic/TokenGenerator.cs:116 | one byte per UTF-16 code unit, every byte ASCII, and ASCII text kept as it is |
| TokenService.AstralAsciiKey | apiSurvey/Logic/TokenGenerator.cs:116 | a character outside the Basic Multilingual Plane becomes "??" |
| TokenService.Utf8HasHighByte | apiSurvey/Logic/TokenGenerator.cs:74 | the UTF-8 bytes of non-ASCII text include one at or above 0x80, which the ASCII key never has |
| TokenService.Utf8Length | apiSurvey/Logic/TokenGenerator.cs:74 | UTF-8 never has fewer bytes than characters, and has exactly as many only for ASCII text |
| TokenService.KeysAgree | apiSurvey/Logic/TokenGenerator.cs:74-116 | the signing key bytes equal the validation key bytes exactly for ASCII secrets |
| TokenService.CheckSettings | apiSurvey/Logic/TokenGenerator.cs:42-68 | succeeds exactly when all five checks pass; otherwise the first failing check, in source order, decides the error |
| TokenService.NewGenerator | apiSurvey/Logic/TokenGenerator.cs:20-40 | with issuer and audience defaulted, construction fails only on the secret or the lifetime, and succeeds exactly when the secret check of the configuration passes and the lifetime is positive |
| TokenService.ValidatedConfigurationBuildsGenerator | apiSurvey/Logic/ConfigHelper.cs:93-111 | a configuration that passes the startup check and has a positive lifetime constructs a generator |
| TokenService.Issue | apiSurvey/Logic/TokenGenerator.cs:69-109 | the token carries the issued claims, the configured issuer and audience, expiry `now` plus the lifetime, and a signature under the UTF-8 key |
| TokenService.ValidateToken | apiSurvey/Logic/TokenGenerator.cs:111-152 | a principal exactly when the token is well formed, signed under the ASCII key, with matching issuer and audience and `now` before `exp`; `null` in every other case, never an exception |
| TokenService.DecodeTokenWithoutValidation | apiSurvey/Logic/TokenGenerator.cs:155-166 | reads every well-formed token whatever its key or lifetime; `null` for anything else |
| TokenService.IssueThenValidate | apiSurvey/Logic/TokenGenerator.cs:69-129 | before expiry an issued token validates exactly when the secret is ASCII, and then yields its claims through the inbound map |
| TokenService.IssuedTokenExpires | apiSurvey/Logic/TokenGenerator.cs:118-129 | an issued token fails validation once its lifetime has passed, with no clock skew |
| TokenService.ValidationNeedsTheKey | apiSurvey/Logic/TokenGenerator.cs:118-129 | a token signed with other key bytes, or altered after signing, never validates |
| TokenService.DecodeReadsIssued | apiSurvey/Logic/TokenGenerator.cs:155-166 | decoding reads back the issued claims, and the claims of every token that validates |
| ClaimLookup.UserIdFrom | apiSurvey/Logic/JwtDebugHelper.cs:53-63 | an id exactly when the type's first claim is non-empty and parses as a 32-bit integer |
| ClaimLookup.RoleFrom | apiSurvey/Logic/JwtDebugHelper.cs:84-91 | a role exactly when the type's first claim is non-empty, and then its value |
| ClaimLookup.FirstUserId | apiSurvey/Logic/JwtDebugHelper.cs:53-66 | nothing exactly when no type yields an id; otherwise an id some type yields |
| ClaimLookup.GetUserIdSafe | apiSurvey/Logic/JwtDebugHelper.cs:39-68 | null for a null principal; otherwise the first claim type, in the fixed order, that yields an id decides, and a type that yields nothing does not stop the search |
| ClaimLookup.FirstRole | apiSurvey/Logic/JwtDebugHelper.cs:84-94 | nothing exactly when no type yields a role; otherwise a role some type yields |
| ClaimLookup.GetUserRoleSafe | apiSurvey/Logic/JwtDebugHelper.cs:73-95 | null for a null principal; otherwise the first non-empty value among the role claim types, unchecked |
| ClaimLookup.SubClaimGivesId | apiSurvey/Logic/JwtDebugHelper.cs:44-61 | a "sub" claim holding the decimal text of a 32-bit id gives that id |
| ClaimLookup.FirstUserIdSecond | apiSurvey/Logic/JwtDebugHelper.cs:53-63 | an earlier type that yields nothing does not stop a later one |
| ClaimLookup.FirstRoleSecond | apiSurvey/Logic/JwtDebugHelper.cs:84-91 | an earlier role type that yields nothing does not stop a later one |
| ClaimLookup.IdFromNameIdentifier | apiSurvey/Logic/JwtDebugHelper.cs:44-61 | with no "sub" claim, the id comes from the name-identifier claim |
| ClaimLookup.IdentityClaimsUserId | apiSurvey/Logic/JwtDebugHelper.cs:44-61 | claims in the issued order, after the inbound map, give the issued id |
| ClaimLookup.IdentityClaimsRole | apiSurvey/Logic/JwtDebugHelper.cs:77-94 | claims in the issued order, after the inbound map, give the issued role |
| ClaimLookup.IssuedTokenUserId | apiSurvey/Logic/TokenGenerator.cs:78-88 | the id read from a validated issued token is the id it was issued for |
| ClaimLookup.IssuedTokenRole | apiSurvey/Logic/TokenGenerator.cs:78-88 | the role read from a validated issued token is the user's type, when non-empty |
| ClaimLookup.RoleAfterIdentity | apiSurvey/Logic/TokenGenerator.cs:78-88 | the identity claims issued before the role never hide it from `FindFirst(Role)` |
| AuthorizationGate.OnAuthorization | apiSurvey/Controllers/JwtAuthorizationAttribute.cs:20-60 | 401 "required" without an exact "Bearer" scheme; a configuration error escapes exactly for Bearer requests whose generator cannot be built; an authorised request publishes the validated principal with an allowed role; 403 only with a role list |
| AuthorizationGate.HeaderCheckedFirst | apiSurvey/Controllers/JwtAuthorizationAttribute.cs:22-30 | without a Bearer header the answer ignores roles, settings and clock; "bearer" in lower case is refused |
| AuthorizationGate.InvalidTokenIgnoresRoles | apiSurvey/Controllers/JwtAuthorizationAttribute.cs:32-43 | a token that fails validation, or none, gets 401 "invalid" whatever roles are listed |
| AuthorizationGate.ConfigurationErrorEscapes | apiSurvey/Controllers/JwtAuthorizationAttribute.cs:34 | a configuration error surfaces for every Bearer request and is never turned into a 401 |
| AuthorizationGate.EmptyRolesAcceptEveryValidToken | apiSurvey/Controllers/JwtAuthorizationAttribute.cs:15-18 | with no roles listed, a request is authorised exactly when its token validates |
| AuthorizationGate.RolesDecideValidTokens | apiSurvey/Controllers/JwtAuthorizationAttribute.cs:46-56 | with roles listed, a valid token whose first role claim is missing or unlisted gets 403; a listed one is authorised |
| AuthorizationGate.IssuedTokenAuthorized | apiSurvey/Controllers/JwtAuthorizationAttribute.cs:20-60 | a token issued under a working configuration with an ASCII secret and an allowed role passes the gate before expiry, and its principal gives back the user's id |
| AuthorizationGate.NonAsciiSecretLocksOut | apiSurvey/Logic/TokenGenerator.cs:74-116 | with a non-ASCII secret every issued token gets 401 "invalid", even before expiry |
| Entities.Defaults | apiSurvey/Models/Model.cs:14-336 | users, surveys and branches start active; questions start optional with order 1; options with order 1; a header starts "iniciada", uncompleted, in one of three states |
| Requests.NewApiResponse | apiSurvey/Logic/DataAPI.cs:191-194 | a new response has an empty error list and no data or message |
| Requests.RegistroFitsUsuario | apiSurvey/Logic/DataAPI.cs:241-258 | a valid registration builds a user row its columns accept exactly when the type fits the 20-character column |
| Requests.RegistroMayExceedTipoCap | apiSurvey/Models/Model.cs:20-37 | a registration that passes its own annotations can still break the user's 20-character type column |
| Store.Add | apiSurvey/Models/Data.cs:62-150 | an identity insert gives the row the next id, which no row held, and changes nothing else |
| Store.AddAll | apiSurvey/Models/Data.cs:62-150 | a batch insert gives the i-th row the id `next + i` and keeps every existing row |
| Store.AddAllAppend | apiSurvey/Models/Data.cs:62-150 | two batches inserted one after the other are one batch of both |
| Store.InsertUsuario | apiSurvey/Models/Data.cs:126-128 | a user is saved exactly when its values fit their columns and no user has its e-mail; a blank name or malformed e-mail is saved |
| Store.InsertEncuesta | apiSurvey/Models/Data.cs:70-74 | a survey is saved exactly when its title fits its column and its administrator exists; a blank title is saved |
| Store.InsertPregunta | apiSurvey/Models/Data.cs:77-81 | a question is saved exactly when its type fits its column and its survey exists; a blank text is saved |
| Store.InsertOpcion | apiSurvey/Models/Data.cs:84-88 | an option is saved exactly when its text and value fit their columns and its question exists |
| Store.InsertRespuesta | apiSurvey/Models/Data.cs:131-133 | a header is saved exactly when it names a branch and its texts fit their columns, the (survey, advisor) pair is free and its references resolve; a taken pair is a duplicate-key error |
| Store.InsertDetalle | apiSurvey/Models/Data.cs:105-123 | a detail row is saved exactly when its header and question exist and its option, if any, does |
| Store.InsertDetalles | apiSurvey/Models/Data.cs:105-123 | a batch of detail rows is saved exactly when every row resolves |
| Store.InsertSucursal | apiSurvey/Models/Data.cs:143-145 | a branch is saved exactly when its texts fit their columns and its code is free; an empty code or name is saved |
| Store.UpdateSucursal | apiSurvey/Models/Data.cs:143-145 | a branch is overwritten exactly when it exists, its texts fit their columns and no other branch holds its code |
| Store.EmptyStoreConsistent | apiSurvey/Models/Data.cs:62-150 | the empty database satisfies the invariant |
| Store.InsertUsuarioConsistent | apiSurvey/Models/Data.cs:126-128 | a saved user keeps the invariant |
| Store.InsertEncuestaConsistent | apiSurvey/Models/Data.cs:70-74 | a saved survey keeps the invariant |
| Store.InsertPreguntaConsistent | apiSurvey/Models/Data.cs:77-81 | a saved question keeps the invariant |
| Store.InsertOpcionConsistent | apiSurvey/Models/Data.cs:84-88 | a saved option keeps the invariant |
| Store.InsertRespuestaConsistent | apiSurvey/Models/Data.cs:91-102 | a saved header keeps the invariant, the responder index included |
| Store.InsertDetalleConsistent | apiSurvey/Models/Data.cs:105-123 | a saved detail row keeps the invariant |
| Store.InsertDetallesConsistent | apiSurvey/Models/Data.cs:105-123 | a saved batch of detail rows keeps the invariant |
| Store.InsertSucursalConsistent | apiSurvey/Models/Data.cs:143-145 | a saved branch keeps the invariant, the code index included |
| Store.UpdateSucursalConsistent | apiSurvey/Models/Data.cs:143-145 | an updated branch keeps the invariant |
| Store.DeleteRespuesta | apiSurvey/Models/Data.cs:105-109 | deleting a header removes it and exactly its detail rows |
| Store.DeleteRespuestaConsistent | apiSurvey/Models/Data.cs:105-109 | the cascade keeps the invariant |
| Store.DeletePregunta | apiSurvey/Models/Data.cs:84-88 | a question is deleted, with exactly its options, unless a detail row names it or one of its options |
| Store.DeletePreguntaConsistent | apiSurvey/Models/Data.cs:84-88 | the cascade keeps the invariant |
| Store.DeleteEncuesta | apiSurvey/Models/Data.cs:77-95 | a survey is deleted with its questions and their options, unless it has responses or its questions are answered |
| Store.DeleteEncuestaConsistent | apiSurvey/Models/Data.cs:77-95 | the cascade keeps the invariant |
| Store.DeleteUsuario | apiSurvey/Models/Data.cs:70-102 | a user who created a survey or submitted a response cannot be deleted |
| Store.DeleteUsuarioConsistent | apiSurvey/Models/Data.cs:70-102 | deleting a user keeps the invariant |
| Store.DeleteSucursal | apiSurvey/Models/Data.cs:136-140 | a branch named by a header cannot be deleted |
| Store.DeleteSucursalConsistent | apiSurvey/Models/Data.cs:136-140 | deleting a branch keeps the invariant |
| Store.SortedRows | apiSurvey/Logic/Services.cs:328-338 | `OrderBy` on an integer key lists exactly the kept rows, once each, in key order |
| Store.SortedRowsBy | apiSurvey/Logic/SucursalService.cs:25-28 | `OrderBy` on a comparison lists exactly the kept rows, once each, in that order |
| UserService.ValidarUsuarioEF | apiSurvey/Logic/Services.cs:164-186 | the first active user with the e-mail, when the password verifies against its hash; nothing when no active user has the e-mail |
| UserService.ValidarUsuario | apiSurvey/Logic/Services.cs:38-161 | an empty e-mail or password, or an empty user table, is refused; a user it returns has no type and the default creation date, because the query's `tipo_usuario` and `fecha_creacion` columns match no property of the DTO it reads into |
| UserService.ValidarUsuarioAgrees | apiSurvey/Logic/Services.cs:38-161 | past its empty-input guard, the SQL login succeeds exactly when the EF login does, with the same id, name, e-mail, hash and active flag |
| UserService.LoginIffActiveAndVerified | apiSurvey/Logic/Services.cs:164-186 | under the unique e-mail index, a login succeeds exactly when an active user has the e-mail, trailing spaces aside, and the password verifies |
| UserService.TrailingSpacesFindUser | apiSurvey/Logic/Services.cs:170-172 | an e-mail sent with trailing spaces logs in as the stored user and counts as taken for a new registration |
| UserService.EmailIdentifies | apiSurvey/Models/Data.cs:126-128 | two users whose e-mails differ at most in trailing spaces are the same user |
| UserService.CrearUsuario | apiSurvey/Logic/Services.cs:187-203 | saved exactly when name, e-mail and type are present and fit their columns and the e-mail is free, hashed and active under the next id; a missing value is refused by its column, a taken e-mail is a duplicate-key error |
| UserService.CrearUsuarioConsistent | apiSurvey/Logic/Services.cs:187-203 | registration keeps the invariant |
| UserService.RegisteredUserCanLogIn | apiSurvey/Logic/Services.cs:164-203 | a user just registered logs in with their password: the EF login returns the saved user; the SQL login, for a non-empty e-mail, returns the same id, name, e-mail and hash but not the type |
| UserService.UnvalidatedRegistrationSaves | apiSurvey/Models/Data.cs:25 | a blank name and an e-mail without '@' are registered; a missing name is refused by its NOT NULL column |
| UserService.ValidRegistrationSaves | apiSurvey/Logic/DataAPI.cs:241-258 | a valid registration with a free e-mail and a type that fits its column is saved |
| UserService.UsuariosListed | apiSurvey/Logic/Services.cs:257-271 | as many entries as active users, ids strictly rising; each shows an active user's fields, never a password, and every active user is shown |
| UserService.ObtenerUsuarios | apiSurvey/Logic/Services.cs:257-271 | each entry is an active user with no password; count, order and completeness are stated by UserService.UsuariosListed |
| UserService.RegisteredUserListed | apiSurvey/Logic/Services.cs:187-271 | a user just registered appears in the next listing |
| SurveyService.Right6 | apiSurvey/Logic/Services.cs:528-532 | SQL `RIGHT(s, 6)`: the last six characters, or all of a shorter string |
| SurveyService.SqlCastIntOfDigits | apiSurvey/Logic/Services.cs:528-532 | a digit string converts to its decimal value |
| SurveyService.SqlCastIntBound | apiSurvey/Logic/Services.cs:528-532 | six characters convert to a value below a million in magnitude |
| SurveyService.NumbersWithPrefix | apiSurvey/Logic/Services.cs:528-532 | exactly the stored request numbers that start with the prefix |
| SurveyService.MaxOrZero | apiSurvey/Logic/Services.cs:528-532 | `ISNULL(MAX(x), 0)`: at least every value and one of them, or 0 for none |
| SurveyService.GeneratedNumberShape | apiSurvey/Logic/Services.cs:520-542 | every number starts "SOL-"; a working query gives "SOL-{year}-" and the next number padded to six digits; a failing one gives the timestamp form |
| SurveyService.GenerarNumeroSolicitud | apiSurvey/Logic/Services.cs:520-542 | every generated number starts "SOL-", whether the query works or throws; the two forms are stated by SurveyService.GeneratedNumberShape |
| SurveyService.GeneratedSuffixReadsBack | apiSurvey/Logic/Services.cs:533-535 | up to 999999, the last six characters of a generated number convert back to the number |
| SurveyService.GeneratedSuffixAtLeast | apiSurvey/Logic/Services.cs:533-535 | up to 999999, the suffix of a generated number converts to at least the number |
| SurveyService.GeneratedSuffixNegative | apiSurvey/Logic/Services.cs:533-535 | a negative number prints its sign before its digits, so its suffix still converts, to at least 0 |
| SurveyService.NotAmongCast | apiSurvey/Logic/Services.cs:528-535 | a number whose suffix exceeds every suffix the query saw is not among the numbers it saw |
| SurveyService.AbsentFromStore | apiSurvey/Logic/Services.cs:528-532 | a number with the prefix that the query did not see is on no stored header |
| SurveyService.GeneratedNumberFresh | apiSurvey/Logic/Services.cs:528-535 | while the year's largest suffix is below 999999, the generated number differs from every stored one |
| SurveyService.LastNumberBound | apiSurvey/Logic/Services.cs:528-532 | the query's maximum stays below a million in magnitude |
| SurveyService.FallbackNumberLength | apiSurvey/Logic/Services.cs:540 | the timestamp form has 19 characters |
| SurveyService.YearPrefixLength | apiSurvey/Logic/Services.cs:535 | "SOL-{year}-" has at most 9 characters, exactly 9 for a four-digit year |
| SurveyService.GeneratedNumberFits | apiSurvey/Models/Model.cs:199-201 | every generated number fits the 50-character column; below a million it is "SOL-YYYY-NNNNNN", 15 characters |
| SurveyService.ExpandAnswer | apiSurvey/Logic/Services.cs:456-500 | a non-empty option list gives one row per element, in order, duplicates kept; else a single option gives one row; else a non-empty text one row; else none; each row sets exactly one of option and text |
| SurveyService.ExpandAll | apiSurvey/Logic/Services.cs:456-500 | the rows of all answers, each under the header and naming its answer's question |
| SurveyService.MultiSelectWins | apiSurvey/Logic/Services.cs:458-473 | a multi-select answer's rows ignore its single option and text |
| SurveyService.SingleOptionBeatsText | apiSurvey/Logic/Services.cs:474-487 | a single option's row ignores the text |
| SurveyService.ResponderEncuesta | apiSurvey/Logic/Services.cs:415-513 | all or nothing: on success exactly one header, "completada" with the request's fields and number, and exactly the expanded rows under its id are added, and nothing else changes |
| SurveyService.UsuarioYaRespondio | apiSurvey/Logic/Services.cs:546-550 | true exactly when some header pairs the survey with the user |
| SurveyService.ResponderEncuestaConsistent | apiSurvey/Logic/Services.cs:415-513 | a recorded submission keeps the invariant |
| SurveyService.RecordedRowsNameTheHeader | apiSurvey/Logic/Services.cs:456-500 | every stored row of a submission names the new header and an answered question |
| SurveyService.SecondSubmissionRejected | apiSurvey/Logic/Services.cs:421-450 | with the pre-check commented out, a second submission of the same advisor for the same survey fails at the unique index |
| SurveyService.AnsweredUserCannotSubmit | apiSurvey/Logic/Services.cs:546-550 | when `UsuarioYaRespondio` holds, a submission fails |
| SurveyService.ValidRequestGivesValidHeader | apiSurvey/Logic/Services.cs:431-450 | a validated request at a valid time builds a header its columns accept |
| SurveyService.CreateOptions | apiSurvey/Logic/Services.cs:385-399 | the options are saved, in order, exactly when the question exists and each has a text and fits its columns |
| SurveyService.SaveQuestion | apiSurvey/Logic/Services.cs:370-399 | one question row under the survey and its option rows under the question's id, and nothing else |
| SurveyService.CreateQuestionsAdds | apiSurvey/Logic/Services.cs:370-400 | a saved batch adds exactly the batch's question rows and, after each, its option rows, and nothing else |
| SurveyService.CreateQuestionsSucceeds | apiSurvey/Logic/Services.cs:370-400 | the questions are saved exactly when the survey exists, or there are none, and every question and option has its required texts and fits its columns |
| SurveyService.CrearEncuesta | apiSurvey/Logic/Services.cs:350-413 | all or nothing: saved exactly when the title is present and fits, the administrator exists, the list is present and every question and option saves; the survey is saved active, created now, under the returned id, then its questions and options |
| SurveyService.BlankSurveyCreated | apiSurvey/Models/Data.cs:25 | a survey with an empty title and a blank question is created; a missing title is refused by its NOT NULL column |
| SurveyService.CrearEncuestaConsistent | apiSurvey/Logic/Services.cs:350-413 | a created survey keeps the invariant |
| SurveyService.CreatedRowsLinked | apiSurvey/Logic/Services.cs:372-395 | every new question belongs to the new survey and every new option to a new question |
| SurveyService.ValidRequestCreates | apiSurvey/Logic/Services.cs:350-413 | a validated request by an existing administrator is saved |
| SurveyService.OptionDtosListed | apiSurvey/Logic/Services.cs:337-345 | a question's options, exactly, sorted by `Orden` |
| SurveyService.QuestionDtosOfSurvey | apiSurvey/Logic/Services.cs:328-346 | every listed question is one of the survey's, as stored |
| SurveyService.QuestionDtosComplete | apiSurvey/Logic/Services.cs:328-346 | every question of the survey is listed |
| SurveyService.ObtenerEncuestaCompleta | apiSurvey/Logic/Services.cs:309-348 | a survey exactly when it exists and is active, with its title and its sorted questions |
| SurveyService.CreatedSurveyReadsBack | apiSurvey/Logic/Services.cs:309-413 | a survey just created reads back active with its title, listing exactly the requested questions with their text and order |
| BranchService.Normalized | apiSurvey/Logic/SucursalService.cs:139-151 | the code trimmed and upper-cased, the name trimmed, optional fields trimmed with null kept |
| BranchService.ValidRequestNormalizes | apiSurvey/Logic/DataAPI.cs:146-174 | a valid request yields a branch its columns accept, whose code and name are not blank |
| BranchService.NormalCodeIdempotent | apiSurvey/Logic/SucursalService.cs:141 | normalising a stored code leaves it unchanged |
| BranchService.CrearSucursal | apiSurvey/Logic/SucursalService.cs:126-165 | refused, adding nothing, when a branch holds the raw code; a null code or name fails; otherwise the normalised branch is saved active under the returned id exactly when it fits its columns and its normalised code is free |
| BranchService.ActualizarSucursal | apiSurvey/Logic/SucursalService.cs:170-213 | false and no change exactly for a missing id; CodeInUse exactly when the code as sent differs from the stored one and another branch holds it; NullField (the `Trim` of a null code or name, lines 193-194) exactly when neither applies and normalising fails; SaveFailed (the save at line 202 refused) exactly when the normalised row overflows a column or another branch holds its normalised code; true exactly when neither applies, and then only that row changes, keeping state and creation time |
| BranchService.CambiarEstadoSucursal | apiSurvey/Logic/SucursalService.cs:218-241 | false and no change for a missing id; otherwise only the state changes |
| BranchService.BlankBranchCreated | apiSurvey/Models/Data.cs:25 | a branch whose code and name trim to nothing is created with both empty |
| BranchService.CrearSucursalConsistent | apiSurvey/Logic/SucursalService.cs:126-165 | a created branch keeps the invariant |
| BranchService.ActualizarSucursalConsistent | apiSurvey/Logic/SucursalService.cs:170-213 | an update keeps the invariant |
| BranchService.NormalCodeTakenRejected | apiSurvey/Logic/SucursalService.cs:126-165 | a branch whose normalised code is stored is never created |
| BranchService.CaseVariantReachesIndex | apiSurvey/Logic/SucursalService.cs:130-137 | a variant of a stored code that the pre-check does not match (letter case, leading blanks) but that normalises to a stored code fails at the unique index |
| BranchService.TrailingBlankCodeCaught | apiSurvey/Logic/SucursalService.cs:130-137 | a stored code followed by spaces is turned away by the pre-check |
| BranchService.ValidRequestCreates | apiSurvey/Logic/SucursalService.cs:126-165 | a valid request whose code is free, raw and normalised, is created |
| BranchService.CambiarEstadoRoundTrip | apiSurvey/Logic/SucursalService.cs:218-241 | switching the state and back restores the store |
| BranchService.PorIdFindsRow | apiSurvey/Logic/SucursalService.cs:54-85 | lookup by id finds the branch whatever its state; `ValidarSucursalActiva` holds exactly when it is found and active |
| BranchService.ObtenerSucursalPorId | apiSurvey/Logic/SucursalService.cs:54-85 | a found branch is the stored row with that id, shown; that it is found whatever its state is stated by BranchService.PorIdFindsRow |
| BranchService.ValidarSucursalActiva | apiSurvey/Logic/SucursalService.cs:344-356 | `Any(Id == id && Activa)` holds exactly when a branch with that id exists and is active |
| BranchService.PorCodigoFindsActive | apiSurvey/Logic/SucursalService.cs:90-121 | lookup by code finds the branch holding it, trailing spaces aside, exactly when it is active |
| BranchService.ObtenerSucursalPorCodigo | apiSurvey/Logic/SucursalService.cs:90-121 | a found branch is active, holds the code as SQL compares it, and is shown as stored; when one is found is stated by BranchService.PorCodigoFindsActive |
| BranchService.ActivasListed | apiSurvey/Logic/SucursalService.cs:21-49 | as many entries as active branches, each showing one of them, every one shown, in name order |
| BranchService.ObtenerSucursalesActivas | apiSurvey/Logic/SucursalService.cs:21-49 | every entry is a stored, active branch; the count, completeness and order are stated by BranchService.ActivasListed |
| BranchService.PorCiudadListed | apiSurvey/Logic/SucursalService.cs:246-274 | as many entries as active branches whose city contains the text, each showing one of them, every one shown, in name order; none for a null city |
| BranchService.ObtenerSucursalesPorCiudad | apiSurvey/Logic/SucursalService.cs:246-274 | every entry is an active branch whose city contains the text, so a null city lists nothing; the rest is stated by BranchService.PorCiudadListed |
| BranchService.ActiveBranchByCode | apiSurvey/Logic/SucursalService.cs:90-121 | an active branch is what lookup by its code finds |
| BranchService.CreatedBranchReadsBack | apiSurvey/Logic/SucursalService.cs:126-165 | a branch just created reads back normalised and active by id, by code and in the active listing |
| BranchService.StoredBranchReadsBack | apiSurvey/Logic/SucursalService.cs:21-121 | a stored active branch is found by id, by code and in the active listing |
| BranchService.UpdatedBranchReadsBack | apiSurvey/Logic/SucursalService.cs:193-202 | an updated branch reads back with the normalised texts and its former state and creation time |
| ReportService.NavigationResolves | apiSurvey/Models/Data.cs:91-116 | under the invariant every required navigation of a header or detail row lands on a stored row |
| ReportService.CompletedHeadersListed | apiSurvey/Logic/ReporteService.cs:138-139 | exactly the survey's completed headers, once each |
| ReportService.AnswerRowsListed | apiSurvey/Logic/ReporteService.cs:138-142 | a question's rows are exactly the stored rows naming it under completed headers of the survey |
| ReportService.AnswerRowsCount | apiSurvey/Logic/ReporteService.cs:138-142 | each of those rows is counted once |
| ReportService.GroupedRowsComplete | apiSurvey/Logic/ReporteService.cs:138-140 | every row of a completed header is in its header's group |
| ReportService.GroupedRowsSound | apiSurvey/Logic/ReporteService.cs:138-140 | the groups hold rows of completed headers of the survey only |
| ReportService.GroupsDisjoint | apiSurvey/Logic/ReporteService.cs:138-140 | rows under distinct headers are distinct |
| ReportService.TextAnswersListed | apiSurvey/Logic/ReporteService.cs:152 | exactly the non-empty texts of the rows |
| ReportService.ObtenerEstadisticasEncuesta | apiSurvey/Logic/ReporteService.cs:121-128 | nothing exactly when no survey has the id; inactive surveys are still reported |
| ReportService.EstadisticasTotal | apiSurvey/Logic/ReporteService.cs:130 | the total is the number of the survey's completed headers |
| ReportService.EstadisticasQuestions | apiSurvey/Logic/ReporteService.cs:133-136 | one entry per question of the survey |
| ReportService.EstadisticasQuestionOrder | apiSurvey/Logic/ReporteService.cs:133-136 | the questions come in id order, each once |
| ReportService.QuestionTotal | apiSurvey/Logic/ReporteService.cs:138-142 | a question's total counts every row of a completed response naming it, one per selected option |
| ReportService.FreeTextListed | apiSurvey/Logic/ReporteService.cs:144-153 | a free-text question lists exactly the non-empty texts among its rows |
| ReportService.OptionCountsBounded | apiSurvey/Logic/ReporteService.cs:157-162 | one count per option, each the rows selecting it, and together at most the question's total |
| ReportService.SumIsCount | apiSurvey/Logic/ReporteService.cs:157-162 | over distinct options, the counts add up to the rows selecting any of them |
| ReportService.SubmissionCounted | apiSurvey/Logic/ReporteService.cs:130 | a recorded submission raises the survey's total by exactly one |
| ReportService.DetailViewsListed | apiSurvey/Logic/ReporteService.cs:41-51 | one view per row of the header, in question order |
| ReportService.TodasListed | apiSurvey/Logic/ReporteService.cs:19-59 | every completed header of the survey, once |
| ReportService.ObtenerTodasLasRespuestasEncuesta | apiSurvey/Logic/ReporteService.cs:19-59 | every entry is a completed header of the survey; count and completeness are stated by ReportService.TodasListed, the order by ReportService.TodasNewestFirst |
| ReportService.TodasNewestFirst | apiSurvey/Logic/ReporteService.cs:52 | newest first, undated headers last |
| ReportService.TodasOnePerAdvisor | apiSurvey/Logic/ReporteService.cs:19-59 | each advisor appears at most once |
| ReportService.RespuestasUsuarioListed | apiSurvey/Logic/ReporteService.cs:198-243 | every header of the advisor whatever its state, once, in id order, with rows in question order |
| ReportService.ObtenerRespuestasUsuario | apiSurvey/Logic/ReporteService.cs:198-243 | every entry is a stored header of that advisor, whatever its state; the rest is stated by ReportService.RespuestasUsuarioListed |
| ReportService.RespuestasUsuarioOnePerSurvey | apiSurvey/Logic/ReporteService.cs:198-243 | each survey appears at most once in an advisor's listing |
| ReportService.UnfinishedListedOnlyForAdvisor | apiSurvey/Logic/ReporteService.cs:203-209 | an unfinished header is listed for its advisor but not among the survey's completed responses |
| ReportService.PorSolicitudFound | apiSurvey/Logic/ReporteService.cs:254-266 | nothing exactly when no header has the number as SQL compares it; otherwise the one with the lowest id |
| ReportService.ObtenerRespuestaPorSolicitud | apiSurvey/Logic/ReporteService.cs:250-292 | a found header carries the number as SQL compares it; when one is found is stated by ReportService.PorSolicitudFound |
| ReportService.RecordedSubmissionFoundByNumber | apiSurvey/Logic/ReporteService.cs:250-292 | a submission under a number no earlier header has, as SQL compares it, is what a lookup by that number finds |
| ReportService.AsesorPorFechaListed | apiSurvey/Logic/ReporteService.cs:299-307 | one entry per completed header of the advisor inside the window |
| ReportService.ObtenerRespuestasAsesorPorFecha | apiSurvey/Logic/ReporteService.cs:295-324 | every entry was completed inside the window, both bounds included; count and order are stated by ReportService.AsesorPorFechaListed and ReportService.AsesorPorFechaOrdered |
| ReportService.AsesorPorFechaOrdered | apiSurvey/Logic/ReporteService.cs:299-307 | every date lies in the window, newest first |
| ReportService.AsesorPorFechaBounds | apiSurvey/Logic/ReporteService.cs:302-305 | both bounds are inclusive, and an empty window finds nothing |
| Text.Utf16LengthIsCount | apiSurvey/Logic/ConfigHelper.cs:100 | `Length` equals the number of characters exactly when none lies outside the Basic Multilingual Plane |
| Text.SqlKeyPadded | apiSurvey/Logic/SucursalService.cs:132 | trailing spaces added to a string do not change what SQL's `=` compares |
| Text.SqlEqualsOrdinal | apiSurvey/Logic/SucursalService.cs:132 | strings without trailing spaces are equal in SQL exactly when they are equal |
| Text.SqlEqualsIsPadding | apiSurvey/Logic/SucursalService.cs:132 | two strings are equal in SQL exactly when each is the other's key followed by spaces |
| Text.TrimIdempotent | apiSurvey/Logic/SucursalService.cs:141 | trimming twice is trimming once |
| Text.ToUpperAsciiIdempotent | apiSurvey/Logic/SucursalService.cs:141 | upper-casing twice is upper-casing once |
| Text.FormatDReadsBack | apiSurvey/Logic/Services.cs:535 | `ToString("D6")` of a natural number reads back as that number |
| Text.ParseInt32OfIntToString | apiSurvey/Logic/JwtDebugHelper.cs:58 | `int.TryParse` of a 32-bit number's text gives the number |
| Text.ParseBoolOfBoolToString | apiSurvey/Logic/ConfigHelper.cs:44-48 | `bool.TryParse` of "true"/"false" in any letter case gives the boolean |

## Left out

- Cryptography: HMAC-SHA256, the compact serialisation of section 7.1 of RFC 7515 and
  base64url are left out. Signatures are the symbolic `Sign(key, payload)`, an ideal MAC.
- Password hashing and verification (`Helpers`, not part of this model) are parameters.
- The clock (`DateTime.Now`, `UtcNow`), the fresh `jti` and whether a raw SQL query
  throws are parameters.
- The `nbf` claim, and the `iss`, `aud` and `exp` claims inside the validated principal,
  are not modelled. Only the issued user claims reach the principal.
- The token handler's library behaviour is modelled by assumption: its inbound
  claim-type map, `FindFirst` ignoring ASCII case, and a lifetime check exclusive at
  `exp`.
- Context construction, connection probes and `VerificarBaseDatos` (Services.cs 16-36,
  52-90, 206-255; Data.cs 14-49) are EF plumbing. The one setting of it the model
  keeps is that validation on save is off (Data.cs:25); see "Saving" above.
- The database schema is not in the source. The column widths and NOT NULL columns
  that the saves check are assumed from the annotations, as Code First would derive
  them. A database built differently refuses different rows.
- `ObtenerEncuestasActivas` (Services.cs 288-307) is not modelled. It is a plain
  filtered listing outside the logic above.
- `ObtenerEstadisticasSucursal` (SucursalService.cs 279-339) is left out. It is a raw
  SQL monthly statistics query.
- `ObtenerResumenGeneral` and the rounded percentages of `ObtenerEstadisticasEncuesta`
  (ReporteService.cs 62-116, 163-165) are left out because they use floating point.
  Only the integer counts are kept.
- ReportService.ObtenerEstadisticasEncuesta: its contract states only presence. The
  counts are stated by the lemmas about it, and percentages are absent.
- `Include` graph loading is not modelled. Navigations read the store directly.
- Concurrency is not modelled, including the read-max-then-insert race of
  `GenerarNumeroSolicitud` between concurrent writers. There is one sequential store,
  and request numbers are not claimed unique beyond it.
- `ToUpper` is culture-sensitive in .NET. It is modelled on ASCII letters only, so a
  non-ASCII letter in a branch code is kept as it is. `Trim` is modelled exactly, on
  the Unicode white-space set `char.IsWhiteSpace` uses.
- SQL string comparison ignores trailing spaces and is otherwise modelled as
  ordinal, as under a binary collation. Under a case-insensitive collation the e-mail,
  code and request-number lookups and the unique indices would also match other
  letter cases, and so would `ObtenerSucursalesPorCiudad`, whose `Contains` runs as a
  SQL `LIKE`.
- The state tests `Estado == "completada"` are modelled as exact comparisons. Where
  one runs as SQL it would also match a state followed by spaces; no operation here
  writes such a state.
- Identity values: SQL Server does not reuse an id taken by an insert that failed or
  was rolled back, while the model's `next` counters move only on a saved insert. So
  after a refused `CrearUsuario`, `CrearEncuesta`, `CrearSucursal` or
  `ResponderEncuesta`, the database can give the next row a higher id than the model
  does. The contracts promise fresh, increasing ids, not the database's exact values.
- Configuration keys are matched ignoring case by folding ASCII letters only;
  `OrdinalIgnoreCase` also folds other letters. Errors that stop the configuration
  file from loading are not modelled.
- The `[EmailAddress]` check is reduced to its structural core: one '@', neither first
  nor last.
- SurveyService.CreateQuestionsAdds: EF saves a question's options with the next
  `SaveChanges`, and the order of ids inside one save is EF's choice. The model gives
  option ids right after their question, in request order.
- Strings are sequences of Unicode scalar values. C# counts a string's `Length`, its
  `nvarchar` widths in UTF-16 code units, where a character outside the Basic
  Multilingual Plane counts two. The secret-length check counts code units here too
  (`Text.Utf16Length`). Column widths and `[StringLength]` limits count characters, so
  text with such characters can pass them here and fail them in C#.
- ReportService.PorSolicitudFound: when several headers share a request number, the
  source's `FirstOrDefault` has no `OrderBy`, and the database may return any of them.
  The model fixes the choice at the lowest id. The "nothing exactly when no header has
  the number" half holds whatever the database picks.
- ReportService.ObtenerRespuestaPorSolicitud: it returns the lowest-id header among
  several with the same number, the model's choice for the unordered `FirstOrDefault`.
- `DateTime` overflow of `now + hours` is not modelled. Times are unbounded integers.
- Times keep whole seconds; the fraction of a second is dropped. At the inclusive upper
  bound of `ObtenerRespuestasAsesorPorFecha` (ReporteService.cs:303-304) a completion a
  fraction of a second after `fechaFin` is listed by the model but not by C#. The same
  holds at the lower bound for one a fraction before `fechaInicio`, and the newest-first
  order can tie completions C# would separate.
- Claims.InboundType: limited to the six short names this code issues or reads. The
  handler's map also renames other short names, such as "given_name", "family_name",
  "upn" and "groups"; the model passes those through unchanged.
- The other controllers (routing, ModelState, response wrapping), `Startup.cs` and its
  second OWIN pipeline, and `WebApiConfig.cs` are framework configuration and are left
  out. This includes the 24-hour expiry that `AuthController` reports.
- `Debug.WriteLine` output and `JwtDebugHelper.DebugClaims` are left out, since they only
  produce diagnostics.
