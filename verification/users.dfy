/** UsuarioService: logging in, registering a user and listing the users. Password
    hashing and verification are helpers this model cannot see; they arrive as
    parameters. A C# `null` string is `None`. */
module UserService {
  import opened Wrappers
  import opened Text
  import opened Entities
  import opened Store
  import Sequences
  import Requests

  /** `Helpers.VerifyPassword(password, storedHash)`. */
  type Verifier = (Option<String>, Option<String>) -> bool

  /** `Helpers.HashPassword(password)`. */
  type Hasher = Option<String> -> String

  /** `UsuarioDto`: a user as the listing returns it, and as the SQL login reads it. */
  datatype UsuarioDto = UsuarioDto(
    id: int,
    nombre: String,
    email: String,
    tipoUsuario: Option<String>,
    fechaCreacion: Timestamp,
    activo: bool,
    password: Option<String>)

  // ---------------------------------------------------------------------------
  // Logging in
  // ---------------------------------------------------------------------------

  /** `u.Email == email && u.Activo`, run as SQL: trailing spaces do not count. A
      `null` e-mail matches no row, since every saved user has one. */
  function ActiveWithEmail(email: Option<String>): Entry<Usuario> -> bool
  {
    (e: Entry<Usuario>) => email.Some? && SqlEquals(e.row.email, email.value) && e.row.activo
  }

  /** `FirstOrDefault` over the active users with that e-mail, read in id order. */
  function FirstActiveWithEmail(s: Store, email: Option<String>): Option<Entry<Usuario>>
  {
    FirstEntry(s.usuarios, ActiveWithEmail(email))
  }

  /** `ValidarUsuarioEF(email, password)`: the first active user with that e-mail, if
      the password verifies against its stored hash; no other guard. */
  function ValidarUsuarioEF(s: Store, email: Option<String>, password: Option<String>, verify: Verifier)
    : (r: Option<Entry<Usuario>>)
    ensures r.Some? ==> r == FirstActiveWithEmail(s, email) && verify(password, r.value.row.password)
    ensures r.None? <==> FirstActiveWithEmail(s, email).None?
                         || !verify(password, FirstActiveWithEmail(s, email).value.row.password)
  {
    match FirstActiveWithEmail(s, email)
    case None => None
    case Some(u) => if verify(password, u.row.password) then Some(u) else None
  }

  /** The row the SQL login reads, as its reader fills a `UsuarioDto`: by property
      name. The columns `id`, `nombre`, `email`, `password` and `activo` find their
      properties; `tipo_usuario` and `fecha_creacion` match none, so the type stays
      `null` and the creation date at `default(DateTime)`. */
  function ReadBySql(u: Entry<Usuario>): UsuarioDto
  {
    UsuarioDto(u.id, u.row.nombre, u.row.email, None, DefaultTimestamp, u.row.activo, u.row.password)
  }

  /** `ValidarUsuario(email, password)`: an empty e-mail or password is turned away
      before the database is read, and so is a login against an empty user table;
      otherwise the same search and check as `ValidarUsuarioEF`, over the row read
      into a `UsuarioDto`. The `Usuario` it returns is copied field by field from that
      DTO, so it is modelled as the DTO: no type, and the default creation date. */
  function ValidarUsuario(s: Store, email: Option<String>, password: Option<String>, verify: Verifier)
    : (r: Option<UsuarioDto>)
    ensures IsNullOrEmpty(email) || IsNullOrEmpty(password) ==> r.None?
    ensures s.usuarios.rows == map[] ==> r.None?
    ensures r.Some? ==> r.value.tipoUsuario.None? && r.value.fechaCreacion == DefaultTimestamp
  {
    if IsNullOrEmpty(email) || IsNullOrEmpty(password) then None
    else if |s.usuarios.rows| == 0 then None
    else
      match FirstActiveWithEmail(s, email)
      case None => None
      case Some(u) =>
        var dto := ReadBySql(u);
        if !verify(password, dto.password) then None else Some(dto)
  }

  /** The fields the SQL login fills agree with the user row: id, name, e-mail,
      password hash and the active flag. */
  predicate SameFilledFields(d: UsuarioDto, u: Entry<Usuario>)
  {
    d.id == u.id && d.nombre == u.row.nombre && d.email == u.row.email
    && d.password == u.row.password && d.activo == u.row.activo
  }

  /** Past its empty-input guard, the SQL login accepts exactly the logins the EF one
      accepts, and returns the same user in every field it fills: the extra check on
      the user count never changes the answer, since an empty table holds no active
      user either. */
  lemma ValidarUsuarioAgrees(s: Store, email: Option<String>, password: Option<String>, verify: Verifier)
    ensures !IsNullOrEmpty(email) && !IsNullOrEmpty(password) ==>
              var sql := ValidarUsuario(s, email, password, verify);
              var ef := ValidarUsuarioEF(s, email, password, verify);
              (sql.Some? <==> ef.Some?) && (sql.Some? ==> SameFilledFields(sql.value, ef.value))
    ensures IsNullOrEmpty(password) && !IsNullOrEmpty(email) && ValidarUsuarioEF(s, email, password, verify).Some? ==>
              ValidarUsuario(s, email, password, verify).None?
  {
    FirstEntryFound(s.usuarios, ActiveWithEmail(email));
  }

  /** Under the unique e-mail index, a login succeeds exactly when an active user has
      that e-mail, trailing spaces aside, and the password verifies against that user's
      hash. */
  lemma LoginIffActiveAndVerified(s: Store, email: String, password: Option<String>, verify: Verifier)
    requires IndicesHold(s)
    ensures var r := ValidarUsuarioEF(s, Some(email), password, verify);
            (r.Some? <==> exists id :: id in s.usuarios.rows && SqlEquals(s.usuarios.rows[id].email, email)
                                       && s.usuarios.rows[id].activo && verify(password, s.usuarios.rows[id].password))
            && (r.Some? ==> r.value.id in s.usuarios.rows && r.value.row == s.usuarios.rows[r.value.id]
                            && SqlEquals(r.value.row.email, email) && r.value.row.activo)
  {
    FirstEntryFound(s.usuarios, ActiveWithEmail(Some(email)));
    var r := ValidarUsuarioEF(s, Some(email), password, verify);
    if exists id :: id in s.usuarios.rows && SqlEquals(s.usuarios.rows[id].email, email)
                    && s.usuarios.rows[id].activo && verify(password, s.usuarios.rows[id].password) {
      var id :| id in s.usuarios.rows && SqlEquals(s.usuarios.rows[id].email, email)
                && s.usuarios.rows[id].activo && verify(password, s.usuarios.rows[id].password);
      assert ActiveWithEmail(Some(email))(Entry(id, s.usuarios.rows[id]));
      var f := FirstActiveWithEmail(s, Some(email)).value;
      EmailIdentifies(s, f.id, id);
    }
  }

  /** Under the unique index, two users whose e-mails differ at most in trailing
      spaces are the same user. */
  lemma EmailIdentifies(s: Store, a: int, b: int)
    requires IndicesHold(s)
    requires a in s.usuarios.rows && b in s.usuarios.rows && SqlEquals(s.usuarios.rows[a].email, s.usuarios.rows[b].email)
    ensures a == b
  {
    assert EmailOf(s.usuarios.rows[a]) == EmailOf(s.usuarios.rows[b]);
  }

  /** An e-mail sent with trailing spaces logs in as the stored user and cannot be
      registered a second time: the query and the unique index both compare as SQL's
      `=` does. */
  lemma TrailingSpacesFindUser(s: Store, id: int, n: nat, password: Option<String>, verify: Verifier)
    requires IndicesHold(s) && id in s.usuarios.rows && s.usuarios.rows[id].activo
    requires verify(password, s.usuarios.rows[id].password)
    ensures var email := s.usuarios.rows[id].email + Spaces(n);
            && ValidarUsuarioEF(s, Some(email), password, verify) == Some(Entry(id, s.usuarios.rows[id]))
            && EmailTaken(s, email)
  {
    var email := s.usuarios.rows[id].email + Spaces(n);
    SqlKeyPadded(s.usuarios.rows[id].email, n);
    LoginIffActiveAndVerified(s, email, password, verify);
    var r := ValidarUsuarioEF(s, Some(email), password, verify);
    EmailIdentifies(s, r.value.id, id);
  }

  // ---------------------------------------------------------------------------
  // Registering a user
  // ---------------------------------------------------------------------------

  /** The row `CrearUsuario` saves: the password is stored hashed, the user active. */
  function RegisteredRow(nombre: String, email: String, password: Option<String>,
                         tipoUsuario: String, now: Timestamp, hash: Hasher): Usuario
  {
    NewUsuario(nombre, email, hash(password), tipoUsuario, now)
  }

  /** What the columns demand of the arguments: a name, an e-mail and a type, none
      longer than its column. The hash is never `null`. Blank values and malformed
      e-mails are saved, since nothing checks the annotations on a save. */
  predicate RegistrationSaves(nombre: Option<String>, email: Option<String>, tipoUsuario: Option<String>)
  {
    nombre.Some? && MaxLength(nombre, 100)
    && email.Some? && MaxLength(email, 150)
    && tipoUsuario.Some? && MaxLength(tipoUsuario, 20)
  }

  /** `CrearUsuario(nombre, email, password, tipoUsuario)`: one insert. It fails when a
      column refuses the row (a `null` in a NOT NULL column, a value longer than its
      column) or another user, active or not, holds the e-mail; otherwise the new
      active user gets the next id and nothing else changes. */
  function CrearUsuario(s: Store, nombre: Option<String>, email: Option<String>, password: Option<String>,
                        tipoUsuario: Option<String>, now: Timestamp, hash: Hasher): (r: Saved)
    ensures r.Success? <==> RegistrationSaves(nombre, email, tipoUsuario) && !EmailTaken(s, email.value)
    ensures !RegistrationSaves(nombre, email, tipoUsuario) ==> r == Failure(ColumnRejected)
    ensures r.Failure? && RegistrationSaves(nombre, email, tipoUsuario) ==> r.error == DuplicateKey
    ensures r.Success? ==>
              var (s', id) := r.value;
              && id !in s.usuarios.rows && s'.usuarios.rows.Keys == s.usuarios.rows.Keys + {id}
              && (forall k :: k in s.usuarios.rows ==> s'.usuarios.rows[k] == s.usuarios.rows[k])
              && s'.usuarios.rows[id].nombre == nombre.value && s'.usuarios.rows[id].email == email.value
              && s'.usuarios.rows[id].password == Some(hash(password))
              && s'.usuarios.rows[id].tipoUsuario == tipoUsuario.value
              && s'.usuarios.rows[id].fechaCreacion == now && s'.usuarios.rows[id].activo
              && s' == s.(usuarios := s'.usuarios)
  {
    if nombre.None? || email.None? || tipoUsuario.None? then Failure(ColumnRejected)
    else InsertUsuario(s, RegisteredRow(nombre.value, email.value, password, tipoUsuario.value, now, hash))
  }

  lemma CrearUsuarioConsistent(s: Store, nombre: Option<String>, email: Option<String>, password: Option<String>,
                               tipoUsuario: Option<String>, now: Timestamp, hash: Hasher)
    requires Consistent(s)
    ensures var r := CrearUsuario(s, nombre, email, password, tipoUsuario, now, hash);
            r.Success? ==> Consistent(r.value.0)
  {
    if nombre.Some? && email.Some? && tipoUsuario.Some? {
      var u := RegisteredRow(nombre.value, email.value, password, tipoUsuario.value, now, hash);
      if InsertUsuario(s, u).Success? {
        InsertUsuarioConsistent(s, u);
      }
    }
  }

  /** A user just registered can log in with the password they chose, whenever the
      verifier accepts a password against its own hash. The EF login returns the
      saved user. The SQL login, given a non-empty e-mail and password, returns the
      same id, name, e-mail and hash, but not the type the user registered with. */
  lemma RegisteredUserCanLogIn(s: Store, nombre: Option<String>, email: Option<String>, password: Option<String>,
                               tipoUsuario: Option<String>, now: Timestamp, hash: Hasher, verify: Verifier)
    requires Consistent(s)
    requires verify(password, Some(hash(password)))
    requires CrearUsuario(s, nombre, email, password, tipoUsuario, now, hash).Success?
    ensures var (s', id) := CrearUsuario(s, nombre, email, password, tipoUsuario, now, hash).value;
            ValidarUsuarioEF(s', email, password, verify) == Some(Entry(id, s'.usuarios.rows[id]))
            && (!IsNullOrEmpty(email) && !IsNullOrEmpty(password) ==>
                  var sql := ValidarUsuario(s', email, password, verify);
                  sql.Some? && SameFilledFields(sql.value, Entry(id, s'.usuarios.rows[id]))
                  && sql.value.tipoUsuario.None? && s'.usuarios.rows[id].tipoUsuario == tipoUsuario.value)
  {
    var (s', id) := CrearUsuario(s, nombre, email, password, tipoUsuario, now, hash).value;
    CrearUsuarioConsistent(s, nombre, email, password, tipoUsuario, now, hash);
    LoginIffActiveAndVerified(s', email.value, password, verify);
    assert ActiveWithEmail(email)(Entry(id, s'.usuarios.rows[id]));
    ValidarUsuarioAgrees(s', email, password, verify);
  }

  /** A registration that passes the request's annotations, with a type of at most 20
      characters and an e-mail nobody holds, is saved. */
  lemma ValidRegistrationSaves(s: Store, req: Requests.RegistrarUsuarioRequest, now: Timestamp, hash: Hasher)
    requires Requests.ValidRegistro(req) && MaxLength(req.tipoUsuario, 20)
    requires !EmailTaken(s, req.email.value)
    ensures CrearUsuario(s, req.nombre, req.email, req.password, req.tipoUsuario, now, hash).Success?
  {
  }

  /** Neither the service nor the save checks the annotations: a blank name and an
      e-mail without an '@' are registered, while a missing name is refused by its
      NOT NULL column. */
  lemma UnvalidatedRegistrationSaves(s: Store, now: Timestamp, hash: Hasher)
    requires !EmailTaken(s, "abc")
    ensures CrearUsuario(s, Some("   "), Some("abc"), None, Some("asesor"), now, hash).Success?
    ensures CrearUsuario(s, None, Some("abc"), None, Some("asesor"), now, hash) == Failure(ColumnRejected)
  {
  }

  // ---------------------------------------------------------------------------
  // Listing users
  // ---------------------------------------------------------------------------

  function IsActiveUser(e: Entry<Usuario>): bool
  {
    e.row.activo
  }

  /** The projection `ObtenerUsuarios` makes: every field but the password. */
  function UsuarioDtoOf(id: int, u: Usuario): UsuarioDto
  {
    UsuarioDto(id, u.nombre, u.email, Some(u.tipoUsuario), u.fechaCreacion, u.activo, None)
  }

  /** `ObtenerUsuarios()`: the active users, read in id order. */
  function ObtenerUsuarios(s: Store): (r: seq<UsuarioDto>)
    ensures forall i :: 0 <= i < |r| ==>
              && r[i].password.None? && r[i].activo
              && r[i].id in s.usuarios.rows && s.usuarios.rows[r[i].id].activo
  {
    Project(Sequences.Filter(Entries(s.usuarios), IsActiveUser), UsuarioDtoOf)
  }

  /** The ids of the active users. */
  ghost function ActiveUserIds(s: Store): set<int>
  {
    set id | id in s.usuarios.rows && s.usuarios.rows[id].activo
  }

  /** The id-order read of the active users has one entry per active user. */
  lemma ActiveUsersCounted(s: Store)
    ensures |Sequences.Filter(Entries(s.usuarios), IsActiveUser)| == |ActiveUserIds(s)|
  {
    var p: Entry<Usuario> -> bool := IsActiveUser;
    CountRows(s.usuarios, p);
    assert (set id | id in s.usuarios.rows && p(Entry(id, s.usuarios.rows[id]))) == ActiveUserIds(s);
  }

  /** The id-order read of the active users has its ids rising. */
  lemma ActiveUsersOrdered(s: Store)
    ensures Sequences.IncreasingBy(Sequences.Filter(Entries(s.usuarios), IsActiveUser), EntryId)
  {
    EntriesIncreasing(s.usuarios);
    Sequences.FilterIncreasing(Entries(s.usuarios), IsActiveUser, EntryId);
  }

  /** The listing holds one entry per active user, in id order, showing that user's
      fields, and never a password or an inactive user. */
  lemma UsuariosListed(s: Store)
    ensures |ObtenerUsuarios(s)| == |ActiveUserIds(s)|
    ensures var r := ObtenerUsuarios(s); forall i, j :: 0 <= i < j < |r| ==> r[i].id < r[j].id
    ensures forall d :: d in ObtenerUsuarios(s) ==>
              && d.password.None? && d.activo && d.id in s.usuarios.rows && s.usuarios.rows[d.id].activo
              && d == UsuarioDtoOf(d.id, s.usuarios.rows[d.id])
    ensures forall id :: id in s.usuarios.rows && s.usuarios.rows[id].activo
                         ==> UsuarioDtoOf(id, s.usuarios.rows[id]) in ObtenerUsuarios(s)
  {
    var mine := Sequences.Filter(Entries(s.usuarios), IsActiveUser);
    var r := ObtenerUsuarios(s);
    ActiveUsersCounted(s);
    ActiveUsersOrdered(s);
    forall i, j | 0 <= i < j < |r| ensures r[i].id < r[j].id {
      assert r[i].id == mine[i].id && r[j].id == mine[j].id;
    }
    ProjectMembers(mine, UsuarioDtoOf);
    forall id | id in s.usuarios.rows && s.usuarios.rows[id].activo
      ensures Entry(id, s.usuarios.rows[id]) in mine
    {
    }
  }

  /** A user registered into a consistent store shows up in the next listing. */
  lemma RegisteredUserListed(s: Store, nombre: Option<String>, email: Option<String>, password: Option<String>,
                             tipoUsuario: Option<String>, now: Timestamp, hash: Hasher)
    requires CrearUsuario(s, nombre, email, password, tipoUsuario, now, hash).Success?
    ensures var (s', id) := CrearUsuario(s, nombre, email, password, tipoUsuario, now, hash).value;
            UsuarioDto(id, nombre.value, email.value, Some(tipoUsuario.value), now, true, None) in ObtenerUsuarios(s')
  {
    var (s', id) := CrearUsuario(s, nombre, email, password, tipoUsuario, now, hash).value;
    UsuariosListed(s');
  }
}
