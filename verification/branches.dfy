/** SucursalService: the branch registry. Branches are created and updated from a
    request whose code is trimmed and upper-cased and whose other texts are trimmed;
    they are switched on and off, looked up by id or code, and listed by name. */
module BranchService {
  import opened Wrappers
  import opened Text
  import opened Entities
  import opened Store
  import opened Requests
  import Sequences

  /** Why a branch write throws: the code is held by another branch (checked on the
      code as the request sent it), a required text is `null` where the service trims
      it, or the save fails. */
  datatype BranchError = CodeInUse | NullField | SaveFailed(cause: StoreError)

  /** `SucursalDto`. */
  datatype SucursalDto = SucursalDto(
    id: int,
    codigoSucursal: String,
    nombre: String,
    direccion: Option<String>,
    ciudad: Option<String>,
    estado: Option<String>,
    telefono: Option<String>,
    gerente: Option<String>,
    email: Option<String>,
    activa: bool)

  function SucursalDtoOf(id: int, b: Sucursal): SucursalDto
  {
    SucursalDto(id, b.codigoSucursal, b.nombre, b.direccion, b.ciudad, b.estado, b.telefono, b.gerente, b.email, b.activa)
  }

  // ---------------------------------------------------------------------------
  // Normalising a request
  // ---------------------------------------------------------------------------

  /** The code as it is stored: trimmed and upper-cased. */
  function NormalCode(code: String): String
  {
    ToUpperAscii(Trim(code))
  }

  /** The branch a request describes, with the state and creation time given: the code
      trimmed and upper-cased, the name trimmed, each optional text trimmed or left
      `null`. A `null` code or name cannot be trimmed. */
  function Normalized(req: SucursalRequest, activa: bool, fechaCreacion: Timestamp): (r: Option<Sucursal>)
    ensures r.Some? <==> req.codigoSucursal.Some? && req.nombre.Some?
  {
    if req.codigoSucursal.None? || req.nombre.None? then None
    else
      Some(Sucursal(NormalCode(req.codigoSucursal.value), Trim(req.nombre.value),
                    TrimOpt(req.direccion), TrimOpt(req.ciudad), TrimOpt(req.estado),
                    TrimOpt(req.telefono), TrimOpt(req.email), TrimOpt(req.gerente),
                    activa, fechaCreacion))
  }

  /** A request that passes its annotations yields a branch its columns accept, with a
      code and a name that are not blank: trimming only shortens, upper-casing keeps
      the length, and neither empties a text that is not blank. */
  lemma ValidRequestNormalizes(req: SucursalRequest, activa: bool, fechaCreacion: Timestamp)
    requires ValidSucursalRequest(req)
    ensures Normalized(req, activa, fechaCreacion).Some?
    ensures FitsSucursal(Normalized(req, activa, fechaCreacion).value)
    ensures Required(Some(Normalized(req, activa, fechaCreacion).value.codigoSucursal))
            && Required(Some(Normalized(req, activa, fechaCreacion).value.nombre))
  {
    TrimKeepsNonBlank(req.codigoSucursal.value);
    ToUpperAsciiKeepsNonBlank(Trim(req.codigoSucursal.value));
    TrimKeepsNonBlank(req.nombre.value);
  }

  /** Normalising is idempotent on the code: a stored code normalises to itself. */
  lemma NormalCodeIdempotent(code: String)
    ensures NormalCode(NormalCode(code)) == NormalCode(code)
  {
    var t := Trim(code);
    var u := ToUpperAscii(t);
    if u != [] {
      UpperCharKeepsWhite(t[0]);
      UpperCharKeepsWhite(t[|t| - 1]);
    }
    TrimByKeeps(u, IsWhiteSpace);
    ToUpperAsciiIdempotent(t);
  }

  // ---------------------------------------------------------------------------
  // Creating, updating, switching on and off
  // ---------------------------------------------------------------------------

  /** The pre-check of `CrearSucursal`: some branch holds the code exactly as sent. A
      `null` code matches no branch. */
  predicate RawCodeTaken(s: Store, code: Option<String>)
  {
    code.Some? && CodigoTaken(s, code.value)
  }

  /** `CrearSucursal(request)`: refuses a code some branch already holds as sent, then
      saves the normalised branch, active and created now, and answers its id. */
  function CrearSucursal(s: Store, req: SucursalRequest, now: Timestamp): (r: Result<(Store, int), BranchError>)
    ensures r == Failure(CodeInUse) <==> RawCodeTaken(s, req.codigoSucursal)
    ensures r == Failure(NullField) <==> !RawCodeTaken(s, req.codigoSucursal) && Normalized(req, true, now).None?
    ensures r.Success? <==>
              !RawCodeTaken(s, req.codigoSucursal) && Normalized(req, true, now).Some?
              && FitsSucursal(Normalized(req, true, now).value)
              && !CodigoTaken(s, NormalCode(req.codigoSucursal.value))
    ensures r.Success? ==>
              var (s', id) := r.value;
              && id !in s.sucursales.rows && s'.sucursales.rows.Keys == s.sucursales.rows.Keys + {id}
              && s'.sucursales.rows[id] == Normalized(req, true, now).value
              && (forall k :: k in s.sucursales.rows ==> s'.sucursales.rows[k] == s.sucursales.rows[k])
              && s' == s.(sucursales := s'.sucursales)
  {
    if RawCodeTaken(s, req.codigoSucursal) then Failure(CodeInUse)
    else
      match Normalized(req, true, now)
      case None => Failure(NullField)
      case Some(b) =>
        assert b.codigoSucursal == NormalCode(req.codigoSucursal.value);
        match InsertSucursal(s, b)
        case Failure(e) => Failure(SaveFailed(e))
        case Success(v) =>
          assert v.0 == s.(sucursales := Add(s.sucursales, b).0) && v.1 == s.sucursales.next;
          Success(v)
  }

  /** `ActualizarSucursal(id, request)`: `false` and no change for a missing id. When the
      code as sent differs from the stored one and another branch holds it, the update
      throws. Otherwise the code, name and contact texts are overwritten with their
      normalised values, keeping the state and creation time, and the answer is `true`. */
  function ActualizarSucursal(s: Store, id: int, req: SucursalRequest): (r: Result<(Store, bool), BranchError>)
    ensures id !in s.sucursales.rows <==> r == Success((s, false))
    ensures r == Failure(CodeInUse) <==>
              id in s.sucursales.rows && req.codigoSucursal.Some?
              && s.sucursales.rows[id].codigoSucursal != req.codigoSucursal.value
              && CodigoTakenByOther(s, req.codigoSucursal.value, id)
    ensures r == Failure(NullField) <==>
              id in s.sucursales.rows
              && !(req.codigoSucursal.Some? && s.sucursales.rows[id].codigoSucursal != req.codigoSucursal.value
                   && CodigoTakenByOther(s, req.codigoSucursal.value, id))
              && Normalized(req, s.sucursales.rows[id].activa, s.sucursales.rows[id].fechaCreacion).None?
    ensures (r.Success? && r.value.1) <==>
              id in s.sucursales.rows
              && !(req.codigoSucursal.Some? && s.sucursales.rows[id].codigoSucursal != req.codigoSucursal.value
                   && CodigoTakenByOther(s, req.codigoSucursal.value, id))
              && var prior := s.sucursales.rows[id];
              && Normalized(req, prior.activa, prior.fechaCreacion).Some?
              && FitsSucursal(Normalized(req, prior.activa, prior.fechaCreacion).value)
              && !CodigoTakenByOther(s, NormalCode(req.codigoSucursal.value), id)
    ensures r.Failure? && r.error.SaveFailed? <==>
              id in s.sucursales.rows
              && !(req.codigoSucursal.Some? && s.sucursales.rows[id].codigoSucursal != req.codigoSucursal.value
                   && CodigoTakenByOther(s, req.codigoSucursal.value, id))
              && var prior := s.sucursales.rows[id];
              && Normalized(req, prior.activa, prior.fechaCreacion).Some?
              && !(FitsSucursal(Normalized(req, prior.activa, prior.fechaCreacion).value)
                   && !CodigoTakenByOther(s, NormalCode(req.codigoSucursal.value), id))
    ensures r.Success? && r.value.1 ==>
              id in s.sucursales.rows
              && var (s', _) := r.value;
              var prior := s.sucursales.rows[id];
              && Normalized(req, prior.activa, prior.fechaCreacion).Some?
              && s'.sucursales.rows == s.sucursales.rows[id := Normalized(req, prior.activa, prior.fechaCreacion).value]
              && s' == s.(sucursales := s'.sucursales)
  {
    if id !in s.sucursales.rows then Success((s, false))
    else
      var current := s.sucursales.rows[id];
      if req.codigoSucursal.Some? && current.codigoSucursal != req.codigoSucursal.value
         && CodigoTakenByOther(s, req.codigoSucursal.value, id)
      then Failure(CodeInUse)
      else
        match Normalized(req, current.activa, current.fechaCreacion)
        case None => Failure(NullField)
        case Some(b) =>
          assert b.codigoSucursal == NormalCode(req.codigoSucursal.value);
          match UpdateSucursal(s, id, b)
          case Failure(e) => Failure(SaveFailed(e))
          case Success(s') => Success((s', true))
  }

  /** `CambiarEstadoSucursal(id, activa)`: `false` and no change for a missing id;
      otherwise only the branch's state changes and the answer is `true`. Saving can only
      fail on a row that already broke the store's rules. */
  function CambiarEstadoSucursal(s: Store, id: int, activa: bool): (r: Result<(Store, bool), StoreError>)
    ensures id !in s.sucursales.rows ==> r == Success((s, false))
    ensures id in s.sucursales.rows && Consistent(s) ==>
              r == Success((s.(sucursales := Put(s.sucursales, id, s.sucursales.rows[id].(activa := activa))), true))
  {
    if id !in s.sucursales.rows then Success((s, false))
    else
      match UpdateSucursal(s, id, s.sucursales.rows[id].(activa := activa))
      case Failure(e) => Failure(e)
      case Success(s') => Success((s', true))
  }

  /** `ValidarSucursalActiva(sucursalId)`. */
  function ValidarSucursalActiva(s: Store, sucursalId: int): (r: bool)
    ensures r <==> sucursalId in s.sucursales.rows && s.sucursales.rows[sucursalId].activa
  {
    FirstEntryFound(s.sucursales, IdAndActive(sucursalId));
    FirstEntry(s.sucursales, IdAndActive(sucursalId)).Some?
  }

  /** `s.Id == sucursalId && s.Activa`. */
  function IdAndActive(sucursalId: int): Entry<Sucursal> -> bool
  {
    (e: Entry<Sucursal>) => e.id == sucursalId && e.row.activa
  }

  lemma CrearSucursalConsistent(s: Store, req: SucursalRequest, now: Timestamp)
    requires Consistent(s)
    ensures var r := CrearSucursal(s, req, now);
            r.Success? ==> Consistent(r.value.0)
  {
    if CrearSucursal(s, req, now).Success? {
      InsertSucursalConsistent(s, Normalized(req, true, now).value);
    }
  }

  lemma ActualizarSucursalConsistent(s: Store, id: int, req: SucursalRequest)
    requires Consistent(s)
    ensures var r := ActualizarSucursal(s, id, req);
            r.Success? ==> Consistent(r.value.0)
  {
    if id in s.sucursales.rows && ActualizarSucursal(s, id, req).Success? {
      var prior := s.sucursales.rows[id];
      var b := Normalized(req, prior.activa, prior.fechaCreacion);
      if b.Some? && UpdateSucursal(s, id, b.value).Success? {
        UpdateSucursalConsistent(s, id, b.value);
      }
    }
  }

  /** Whatever the code as sent, a branch whose normalised code is already stored is
      never created: either the pre-check or the unique index turns it away. */
  lemma NormalCodeTakenRejected(s: Store, req: SucursalRequest, now: Timestamp)
    requires req.codigoSucursal.Some? && CodigoTaken(s, NormalCode(req.codigoSucursal.value))
    ensures CrearSucursal(s, req, now).Failure?
  {
  }

  /** The pre-check compares the code as sent, so a request differing from a stored code
      in case or in leading blanks gets past it and fails at the unique index. Trailing
      spaces alone do not get past it (`TrailingBlankCodeCaught`). */
  lemma CaseVariantReachesIndex(s: Store, req: SucursalRequest, now: Timestamp)
    requires Consistent(s) && ValidSucursalRequest(req)
    requires !RawCodeTaken(s, req.codigoSucursal) && CodigoTaken(s, NormalCode(req.codigoSucursal.value))
    ensures CrearSucursal(s, req, now) == Failure(SaveFailed(DuplicateKey))
  {
    ValidRequestNormalizes(req, true, now);
  }

  /** The pre-check runs as SQL, where trailing spaces do not count: a request whose
      code is a stored code followed by spaces is turned away before anything is saved. */
  lemma TrailingBlankCodeCaught(s: Store, id: int, n: nat, req: SucursalRequest, now: Timestamp)
    requires id in s.sucursales.rows
    requires req.codigoSucursal == Some(s.sucursales.rows[id].codigoSucursal + Spaces(n))
    ensures CrearSucursal(s, req, now) == Failure(CodeInUse)
  {
    SqlKeyPadded(s.sucursales.rows[id].codigoSucursal, n);
    assert SqlEquals(s.sucursales.rows[id].codigoSucursal, req.codigoSucursal.value);
  }

  /** A valid request whose code, as sent and normalised, no branch holds is created. */
  lemma ValidRequestCreates(s: Store, req: SucursalRequest, now: Timestamp)
    requires ValidSucursalRequest(req)
    requires !CodigoTaken(s, req.codigoSucursal.value) && !CodigoTaken(s, NormalCode(req.codigoSucursal.value))
    ensures CrearSucursal(s, req, now).Success?
  {
    ValidRequestNormalizes(req, true, now);
  }

  /** Nothing checks the annotations on a save: a code and a name that trim to nothing
      are saved as empty strings. */
  lemma BlankBranchCreated(s: Store, now: Timestamp)
    requires !CodigoTaken(s, "")
    ensures var r := CrearSucursal(s, SucursalRequest(Some("  "), Some(" "), None, None, None, None, None, None), now);
            r.Success? && r.value.0.sucursales.rows[r.value.1].codigoSucursal == []
            && r.value.0.sucursales.rows[r.value.1].nombre == []
  {
  }

  /** Switching a branch off and back to its state restores the store exactly. */
  lemma CambiarEstadoRoundTrip(s: Store, id: int, activa: bool)
    requires Consistent(s) && id in s.sucursales.rows
    ensures var r := CambiarEstadoSucursal(s, id, activa);
            r.Success? && r.value.1 && ValidarSucursalActiva(r.value.0, id) == activa
            && CambiarEstadoSucursal(r.value.0, id, s.sucursales.rows[id].activa) == Success((s, true))
  {
    var prior := s.sucursales.rows[id];
    var b := prior.(activa := activa);
    var s1 := s.(sucursales := Put(s.sucursales, id, b));
    assert CambiarEstadoSucursal(s, id, activa) == Success((s1, true));
    UpdateSucursalConsistent(s, id, b);
    assert s1.sucursales.rows[id].(activa := prior.activa) == prior;
    PutBack(s.sucursales, id, b);
  }

  // ---------------------------------------------------------------------------
  // Lookups and listings
  // ---------------------------------------------------------------------------

  /** `ObtenerSucursalPorId(id)`: the branch with that id, active or not. */
  function ObtenerSucursalPorId(s: Store, id: int): (r: Option<SucursalDto>)
    ensures r.Some? ==> id in s.sucursales.rows && r.value == SucursalDtoOf(id, s.sucursales.rows[id])
  {
    FirstEntryFound(s.sucursales, (e: Entry<Sucursal>) => e.id == id);
    match FirstEntry(s.sucursales, (e: Entry<Sucursal>) => e.id == id)
    case None => None
    case Some(e) => Some(SucursalDtoOf(e.id, e.row))
  }

  /** `CodigoSucursal == codigo && Activa`, run as SQL: trailing spaces do not count. */
  function ActiveWithCode(codigo: Option<String>): Entry<Sucursal> -> bool
  {
    (e: Entry<Sucursal>) => codigo.Some? && SqlEquals(e.row.codigoSucursal, codigo.value) && e.row.activa
  }

  /** `ObtenerSucursalPorCodigo(codigo)`: the first active branch with that code. */
  function ObtenerSucursalPorCodigo(s: Store, codigo: Option<String>): (r: Option<SucursalDto>)
    ensures r.Some? ==>
              && codigo.Some? && SqlEquals(r.value.codigoSucursal, codigo.value) && r.value.activa
              && r.value.id in s.sucursales.rows && r.value == SucursalDtoOf(r.value.id, s.sucursales.rows[r.value.id])
  {
    FirstEntryFound(s.sucursales, ActiveWithCode(codigo));
    match FirstEntry(s.sucursales, ActiveWithCode(codigo))
    case None => None
    case Some(e) => Some(SucursalDtoOf(e.id, e.row))
  }

  /** Lookup by id finds the stored branch whatever its state; the state check reads the
      same row. */
  lemma PorIdFindsRow(s: Store, id: int)
    ensures ObtenerSucursalPorId(s, id).Some? <==> id in s.sucursales.rows
    ensures id in s.sucursales.rows ==> ObtenerSucursalPorId(s, id) == Some(SucursalDtoOf(id, s.sucursales.rows[id]))
    ensures ValidarSucursalActiva(s, id) <==> ObtenerSucursalPorId(s, id).Some? && ObtenerSucursalPorId(s, id).value.activa
  {
    FirstEntryFound(s.sucursales, (e: Entry<Sucursal>) => e.id == id);
  }

  /** Under the unique code index, lookup by code finds the branch holding it, trailing
      spaces aside, exactly when that branch is active. */
  lemma PorCodigoFindsActive(s: Store, codigo: String)
    requires IndicesHold(s)
    ensures var r := ObtenerSucursalPorCodigo(s, Some(codigo));
            (r.Some? <==> exists id :: id in s.sucursales.rows && SqlEquals(s.sucursales.rows[id].codigoSucursal, codigo)
                                       && s.sucursales.rows[id].activa)
            && (r.Some? ==> r.value.id in s.sucursales.rows && r.value == SucursalDtoOf(r.value.id, s.sucursales.rows[r.value.id])
                            && SqlEquals(r.value.codigoSucursal, codigo) && r.value.activa)
  {
    FirstEntryFound(s.sucursales, ActiveWithCode(Some(codigo)));
    if exists id :: id in s.sucursales.rows && SqlEquals(s.sucursales.rows[id].codigoSucursal, codigo) && s.sucursales.rows[id].activa {
      var id :| id in s.sucursales.rows && SqlEquals(s.sucursales.rows[id].codigoSucursal, codigo) && s.sucursales.rows[id].activa;
      assert ActiveWithCode(Some(codigo))(Entry(id, s.sucursales.rows[id]));
    }
  }

  /** `OrderBy(s => s.Nombre)`, ordinal. */
  function NameLeq(a: Sucursal, b: Sucursal): bool
  {
    LexLeq(a.nombre, b.nombre)
  }

  lemma NameLeqTotal()
    ensures Sequences.TotalPreorder(NameLeq)
  {
    LexLeqIsTotalPreorder();
  }

  function IsActiveBranch(b: Sucursal): bool
  {
    b.activa
  }

  /** The branches `keep` selects, ordered by name and projected. */
  function ListedByName(s: Store, keep: Sucursal -> bool): (r: seq<SucursalDto>)
    ensures forall i :: 0 <= i < |r| ==>
              && r[i].id in s.sucursales.rows && keep(s.sucursales.rows[r[i].id])
              && r[i] == SucursalDtoOf(r[i].id, s.sucursales.rows[r[i].id])
  {
    NameLeqTotal();
    Project(SortedRowsBy(s.sucursales, keep, NameLeq), SucursalDtoOf)
  }

  /** `ObtenerSucursalesActivas()`: the active branches by name. */
  function ObtenerSucursalesActivas(s: Store): (r: seq<SucursalDto>)
    ensures forall i :: 0 <= i < |r| ==> r[i].activa && r[i].id in s.sucursales.rows
  {
    ListedByName(s, IsActiveBranch)
  }

  /** `s.Activa && s.Ciudad.Contains(ciudad)`: a branch with no city, or a `null` city
      to look for, matches nothing. */
  function InCity(ciudad: Option<String>): Sucursal -> bool
  {
    (b: Sucursal) => b.activa && b.ciudad.Some? && ciudad.Some? && Contains(b.ciudad.value, ciudad.value)
  }

  /** `ObtenerSucursalesPorCiudad(ciudad)`: the active branches in that city, by name. */
  function ObtenerSucursalesPorCiudad(s: Store, ciudad: Option<String>): (r: seq<SucursalDto>)
    ensures forall i :: 0 <= i < |r| ==>
              r[i].activa && r[i].ciudad.Some? && ciudad.Some? && Contains(r[i].ciudad.value, ciudad.value)
  {
    ListedByName(s, InCity(ciudad))
  }

  /** What a listing made from rows kept by `keep` holds: one entry per kept branch,
      showing it, in name order. */
  ghost predicate ListsBranches(s: Store, r: seq<SucursalDto>, keep: Sucursal -> bool)
  {
    && |r| == |KeptIds(s.sucursales, keep)|
    && (forall i, j :: 0 <= i < j < |r| ==> LexLeq(r[i].nombre, r[j].nombre))
    && (forall d :: d in r ==> d.id in s.sucursales.rows && keep(s.sucursales.rows[d.id])
                               && d == SucursalDtoOf(d.id, s.sucursales.rows[d.id]))
    && (forall id :: id in s.sucursales.rows && keep(s.sucursales.rows[id]) ==> SucursalDtoOf(id, s.sucursales.rows[id]) in r)
  }

  lemma SortedBranchesListed(s: Store, keep: Sucursal -> bool)
    ensures ListsBranches(s, ListedByName(s, keep), keep)
  {
    NameLeqTotal();
    var rows := SortedRowsBy(s.sucursales, keep, NameLeq);
    assert |ListedByName(s, keep)| == |rows| == |KeptIds(s.sucursales, keep)|;
    ProjectMembers(rows, SucursalDtoOf);
    forall id | id in s.sucursales.rows && keep(s.sucursales.rows[id])
      ensures Entry(id, s.sucursales.rows[id]) in rows
    {
    }
  }

  /** The active listing holds exactly the active branches, by name. */
  lemma ActivasListed(s: Store)
    ensures ListsBranches(s, ObtenerSucursalesActivas(s), IsActiveBranch)
  {
    SortedBranchesListed(s, IsActiveBranch);
  }

  /** The city listing holds exactly the active branches whose city contains the text,
      by name; every one of them is also in the active listing. */
  lemma PorCiudadListed(s: Store, ciudad: Option<String>)
    ensures ListsBranches(s, ObtenerSucursalesPorCiudad(s, ciudad), InCity(ciudad))
    ensures forall d :: d in ObtenerSucursalesPorCiudad(s, ciudad) ==> d in ObtenerSucursalesActivas(s)
    ensures ciudad.None? ==> ObtenerSucursalesPorCiudad(s, ciudad) == []
  {
    SortedBranchesListed(s, InCity(ciudad));
    SortedBranchesListed(s, IsActiveBranch);
  }

  /** Under the unique code index, an active branch is what lookup by its code finds. */
  lemma ActiveBranchByCode(s: Store, id: int)
    requires IndicesHold(s) && id in s.sucursales.rows && s.sucursales.rows[id].activa
    ensures ObtenerSucursalPorCodigo(s, Some(s.sucursales.rows[id].codigoSucursal))
            == Some(SucursalDtoOf(id, s.sucursales.rows[id]))
  {
    var codigo := s.sucursales.rows[id].codigoSucursal;
    PorCodigoFindsActive(s, codigo);
    var r := ObtenerSucursalPorCodigo(s, Some(codigo));
    assert r.value.id == id by {
      assert CodigoOf(s.sucursales.rows[r.value.id]) == CodigoOf(s.sucursales.rows[id]);
    }
  }

  /** A branch just created reads back, normalised and active, by id, by its stored code
      and in the active listing. */
  lemma CreatedBranchReadsBack(s: Store, req: SucursalRequest, now: Timestamp, s': Store, id: int)
    requires Consistent(s) && CrearSucursal(s, req, now) == Success((s', id))
    ensures Normalized(req, true, now).Some?
    ensures ObtenerSucursalPorId(s', id) == Some(SucursalDtoOf(id, Normalized(req, true, now).value))
    ensures ObtenerSucursalPorCodigo(s', Some(NormalCode(req.codigoSucursal.value)))
            == Some(SucursalDtoOf(id, Normalized(req, true, now).value))
    ensures ValidarSucursalActiva(s', id)
    ensures SucursalDtoOf(id, Normalized(req, true, now).value) in ObtenerSucursalesActivas(s')
  {
    CrearSucursalConsistent(s, req, now);
    var b := Normalized(req, true, now).value;
    assert s'.sucursales.rows[id] == b;
    StoredBranchReadsBack(s', id);
  }

  /** A stored active branch is found by id, by code and in the active listing. */
  lemma StoredBranchReadsBack(s: Store, id: int)
    requires IndicesHold(s) && id in s.sucursales.rows && s.sucursales.rows[id].activa
    ensures ObtenerSucursalPorId(s, id) == Some(SucursalDtoOf(id, s.sucursales.rows[id]))
    ensures ObtenerSucursalPorCodigo(s, Some(s.sucursales.rows[id].codigoSucursal)) == Some(SucursalDtoOf(id, s.sucursales.rows[id]))
    ensures SucursalDtoOf(id, s.sucursales.rows[id]) in ObtenerSucursalesActivas(s)
  {
    PorIdFindsRow(s, id);
    ActiveBranchByCode(s, id);
    ActivasListed(s);
  }

  /** After an update the branch reads back by id with the normalised request texts and
      its former state and creation time. */
  lemma UpdatedBranchReadsBack(s: Store, id: int, req: SucursalRequest)
    requires ActualizarSucursal(s, id, req).Success? && ActualizarSucursal(s, id, req).value.1
    ensures var prior := s.sucursales.rows[id];
            ObtenerSucursalPorId(ActualizarSucursal(s, id, req).value.0, id)
            == Some(SucursalDtoOf(id, Normalized(req, prior.activa, prior.fechaCreacion).value))
  {
    PorIdFindsRow(ActualizarSucursal(s, id, req).value.0, id);
  }
}
