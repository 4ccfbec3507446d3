/** The survey database as an immutable value: one identity-keyed table per entity,
    the unique indices, required and optional foreign keys, and the cascade rules
    the context configures, together with the saves that keep them. A save that
    breaks a rule fails and leaves the store as it was. */
module Store {
  import opened Wrappers
  import opened Text
  import opened Entities
  import Sequences

  // ---------------------------------------------------------------------------
  // Tables
  // ---------------------------------------------------------------------------

  /** A table: rows by id and the identity seed of the next insert. */
  datatype TableRep<T> = TableRep(rows: map<int, T>, next: int)

  type Table<T> = t: TableRep<T> | 1 <= t.next && forall id :: id in t.rows ==> 1 <= id < t.next
    witness TableRep(map[], 1)

  datatype Entry<T> = Entry(id: int, row: T)

  /** An identity insert: the row gets the next id, which no row holds yet. */
  function Add<T>(t: Table<T>, row: T): (r: (Table<T>, int))
    ensures r.1 == t.next && r.1 !in t.rows
    ensures r.0.rows == t.rows[r.1 := row] && r.0.next == t.next + 1
  {
    (TableRep(t.rows[t.next := row], t.next + 1), t.next)
  }

  /** Overwrites the row with an existing id. */
  function Put<T>(t: Table<T>, id: int, row: T): (r: Table<T>)
    requires id in t.rows
    ensures r.rows == t.rows[id := row] && r.next == t.next
  {
    TableRep(t.rows[id := row], t.next)
  }

  /** Overwriting a row and then writing the original back restores the table. */
  lemma PutBack<T>(t: Table<T>, id: int, row: T)
    requires id in t.rows
    ensures Put(Put(t, id, row), id, t.rows[id]) == t
  {
    assert t.rows[id := row][id := t.rows[id]] == t.rows;
  }

  /** The rows whose id satisfies `keep`; the identity seed does not move back. */
  function Keep<T>(t: Table<T>, keep: int -> bool): (r: Table<T>)
    ensures forall id :: id in r.rows <==> id in t.rows && keep(id)
    ensures forall id :: id in r.rows ==> r.rows[id] == t.rows[id]
    ensures r.next == t.next
  {
    TableRep(map id | id in t.rows && keep(id) :: t.rows[id], t.next)
  }

  /** The rows with an id of at least `lo`, in id order. */
  function EntriesFrom<T(!new)>(t: Table<T>, lo: int): (r: seq<Entry<T>>)
    requires 1 <= lo
    ensures forall e :: e in r <==> lo <= e.id && e.id in t.rows && t.rows[e.id] == e.row
    ensures forall i, j :: 0 <= i < j < |r| ==> r[i].id < r[j].id
    ensures forall i :: 0 <= i < |r| ==> lo <= r[i].id
    decreases t.next - lo
  {
    if t.next <= lo then []
    else
      var rest := EntriesFrom(t, lo + 1);
      if lo in t.rows then [Entry(lo, t.rows[lo])] + rest else rest
  }

  /** All rows in id order: the order a query without `ORDER BY` is modelled to return. */
  function Entries<T(!new)>(t: Table<T>): (r: seq<Entry<T>>)
    ensures forall e :: e in r <==> e.id in t.rows && t.rows[e.id] == e.row
    ensures forall i, j :: 0 <= i < j < |r| ==> r[i].id < r[j].id
  {
    EntriesFrom(t, 1)
  }

  // ---------------------------------------------------------------------------
  // Table properties
  // ---------------------------------------------------------------------------

  /** Every row satisfies `p`. */
  predicate AllRows<T>(t: Table<T>, p: T -> bool)
  {
    forall id :: id in t.rows ==> p(t.rows[id])
  }

  /** No two rows share a key: a unique index. */
  predicate UniqueBy<T, K(==)>(t: Table<T>, key: T -> K)
  {
    forall a, b :: a in t.rows && b in t.rows && a != b ==> key(t.rows[a]) != key(t.rows[b])
  }

  /** A foreign-key value: absent, or the id of a row in `keys`. */
  predicate Resolves(ref: Option<int>, keys: set<int>)
  {
    ref.None? || ref.value in keys
  }

  /** Every row's foreign key `ref` resolves in `keys`. */
  predicate RefsIn<T>(t: Table<T>, ref: T -> Option<int>, keys: set<int>)
  {
    forall id :: id in t.rows ==> Resolves(ref(t.rows[id]), keys)
  }

  lemma AddAllRows<T>(t: Table<T>, p: T -> bool, row: T)
    requires AllRows(t, p) && p(row)
    ensures AllRows(Add(t, row).0, p)
  {
  }

  lemma AddUnique<T, K>(t: Table<T>, key: T -> K, row: T)
    requires UniqueBy(t, key)
    requires forall id :: id in t.rows ==> key(t.rows[id]) != key(row)
    ensures UniqueBy(Add(t, row).0, key)
  {
  }

  lemma AddRefs<T>(t: Table<T>, ref: T -> Option<int>, keys: set<int>, row: T)
    requires RefsIn(t, ref, keys) && Resolves(ref(row), keys)
    ensures RefsIn(Add(t, row).0, ref, keys)
  {
  }

  lemma GrowRefs<T>(t: Table<T>, ref: T -> Option<int>, keys: set<int>, keys': set<int>)
    requires RefsIn(t, ref, keys) && keys <= keys'
    ensures RefsIn(t, ref, keys')
  {
  }

  lemma KeepAllRows<T>(t: Table<T>, p: T -> bool, keep: int -> bool)
    requires AllRows(t, p)
    ensures AllRows(Keep(t, keep), p)
  {
  }

  lemma KeepUnique<T, K>(t: Table<T>, key: T -> K, keep: int -> bool)
    requires UniqueBy(t, key)
    ensures UniqueBy(Keep(t, keep), key)
  {
  }

  lemma KeepRefs<T>(t: Table<T>, ref: T -> Option<int>, keys: set<int>, keep: int -> bool)
    requires RefsIn(t, ref, keys)
    ensures RefsIn(Keep(t, keep), ref, keys)
  {
  }

  // ---------------------------------------------------------------------------
  // The store and its invariant
  // ---------------------------------------------------------------------------

  datatype Store = Store(
    usuarios: Table<Usuario>,
    encuestas: Table<Encuesta>,
    preguntas: Table<Pregunta>,
    opciones: Table<Opcion>,
    respuestas: Table<Respuesta>,
    detalles: Table<Detalle>,
    sucursales: Table<Sucursal>)

  const EmptyStore: Store :=
    Store(TableRep(map[], 1), TableRep(map[], 1), TableRep(map[], 1), TableRep(map[], 1),
          TableRep(map[], 1), TableRep(map[], 1), TableRep(map[], 1))

  // Index keys: the unique indices on strings compare as SQL's `=` does
  function EmailOf(u: Usuario): String { SqlKey(u.email) }
  function ResponderOf(h: Respuesta): (int, int) { (h.encuestaId, h.usuarioAsesorId) }
  function CodigoOf(b: Sucursal): String { SqlKey(b.codigoSucursal) }

  // Foreign keys
  function AdminOf(e: Encuesta): Option<int> { Some(e.usuarioAdminId) }
  function SurveyOfQuestion(p: Pregunta): Option<int> { Some(p.encuestaId) }
  function QuestionOfOption(o: Opcion): Option<int> { Some(o.preguntaId) }
  function SurveyOfHeader(h: Respuesta): Option<int> { Some(h.encuestaId) }
  function AdvisorOf(h: Respuesta): Option<int> { Some(h.usuarioAsesorId) }
  function BranchOf(h: Respuesta): Option<int> { h.sucursalId }
  function HeaderOf(d: Detalle): Option<int> { Some(d.respuestaEncuestaId) }
  function QuestionOfDetail(d: Detalle): Option<int> { Some(d.preguntaId) }
  function OptionOf(d: Detalle): Option<int> { d.opcionId }

  /** The unique indices on `Usuario.Email`, on (`EncuestaId`, `UsuarioAsesorId`) of the
      headers, and on `CodigoSucursal`. */
  predicate IndicesHold(s: Store)
  {
    UniqueBy(s.usuarios, EmailOf) && UniqueBy(s.respuestas, ResponderOf) && UniqueBy(s.sucursales, CodigoOf)
  }

  /** Every required foreign key names a row; the optional ones (a header's branch, a
      detail's option) are absent or name a row. */
  predicate ReferencesResolve(s: Store)
  {
    && RefsIn(s.encuestas, AdminOf, s.usuarios.rows.Keys)
    && RefsIn(s.preguntas, SurveyOfQuestion, s.encuestas.rows.Keys)
    && RefsIn(s.opciones, QuestionOfOption, s.preguntas.rows.Keys)
    && RefsIn(s.respuestas, SurveyOfHeader, s.encuestas.rows.Keys)
    && RefsIn(s.respuestas, AdvisorOf, s.usuarios.rows.Keys)
    && RefsIn(s.respuestas, BranchOf, s.sucursales.rows.Keys)
    && RefsIn(s.detalles, HeaderOf, s.respuestas.rows.Keys)
    && RefsIn(s.detalles, QuestionOfDetail, s.preguntas.rows.Keys)
    && RefsIn(s.detalles, OptionOf, s.opciones.rows.Keys)
  }

  /** Every stored row fits its columns: the widths and NOT NULL columns the database
      checked when it was saved. */
  predicate RowsFit(s: Store)
  {
    && AllRows(s.usuarios, FitsUsuario) && AllRows(s.encuestas, FitsEncuesta)
    && AllRows(s.preguntas, FitsPregunta) && AllRows(s.opciones, FitsOpcion)
    && AllRows(s.respuestas, FitsRespuesta) && AllRows(s.sucursales, FitsSucursal)
  }

  predicate Consistent(s: Store)
  {
    IndicesHold(s) && ReferencesResolve(s) && RowsFit(s)
  }

  lemma EmptyStoreConsistent()
    ensures Consistent(EmptyStore)
    ensures Entries(EmptyStore.respuestas) == []
  {
  }

  // ---------------------------------------------------------------------------
  // Saves
  // ---------------------------------------------------------------------------

  /** Why `SaveChanges` throws: a value its column cannot hold (a `null` in a NOT NULL
      column, a string longer than the column), a unique index, a foreign key that
      names no row, a delete that a non-cascading relationship forbids, a missing row. */
  datatype StoreError = ColumnRejected | DuplicateKey | MissingReference | StillReferenced | NotFound

  type Saved = Result<(Store, int), StoreError>

  /** Some user's e-mail equals `email` inside SQL, trailing spaces aside. */
  predicate EmailTaken(s: Store, email: String)
  {
    exists id :: id in s.usuarios.rows && SqlEquals(s.usuarios.rows[id].email, email)
  }

  predicate ResponderTaken(s: Store, encuestaId: int, asesorId: int)
  {
    exists id :: id in s.respuestas.rows && s.respuestas.rows[id].encuestaId == encuestaId
                 && s.respuestas.rows[id].usuarioAsesorId == asesorId
  }

  /** Some branch's code equals `codigo` inside SQL, trailing spaces aside. */
  predicate CodigoTaken(s: Store, codigo: String)
  {
    exists id :: id in s.sucursales.rows && SqlEquals(s.sucursales.rows[id].codigoSucursal, codigo)
  }

  /** Some branch other than `self` holds the code, as SQL compares it. */
  predicate CodigoTakenByOther(s: Store, codigo: String, self: int)
  {
    exists id :: id in s.sucursales.rows && id != self && SqlEquals(s.sucursales.rows[id].codigoSucursal, codigo)
  }

  predicate HeaderResolves(s: Store, h: Respuesta)
  {
    Resolves(SurveyOfHeader(h), s.encuestas.rows.Keys) && Resolves(AdvisorOf(h), s.usuarios.rows.Keys)
    && Resolves(BranchOf(h), s.sucursales.rows.Keys)
  }

  predicate DetailResolves(s: Store, d: Detalle)
  {
    Resolves(HeaderOf(d), s.respuestas.rows.Keys) && Resolves(QuestionOfDetail(d), s.preguntas.rows.Keys)
    && Resolves(OptionOf(d), s.opciones.rows.Keys)
  }

  function InsertUsuario(s: Store, u: Usuario): (r: Saved)
    ensures r.Success? <==> FitsUsuario(u) && !EmailTaken(s, u.email)
    ensures r.Success? ==> r.value.0 == s.(usuarios := Add(s.usuarios, u).0) && r.value.1 == s.usuarios.next
  {
    if !FitsUsuario(u) then Failure(ColumnRejected)
    else if EmailTaken(s, u.email) then Failure(DuplicateKey)
    else
      var (t, id) := Add(s.usuarios, u);
      Success((s.(usuarios := t), id))
  }

  function InsertEncuesta(s: Store, e: Encuesta): (r: Saved)
    ensures r.Success? <==> FitsEncuesta(e) && e.usuarioAdminId in s.usuarios.rows
    ensures r.Success? ==> r.value.0 == s.(encuestas := Add(s.encuestas, e).0) && r.value.1 == s.encuestas.next
  {
    if !FitsEncuesta(e) then Failure(ColumnRejected)
    else if e.usuarioAdminId !in s.usuarios.rows then Failure(MissingReference)
    else
      var (t, id) := Add(s.encuestas, e);
      Success((s.(encuestas := t), id))
  }

  function InsertPregunta(s: Store, p: Pregunta): (r: Saved)
    ensures r.Success? <==> FitsPregunta(p) && p.encuestaId in s.encuestas.rows
    ensures r.Success? ==> r.value.0 == s.(preguntas := Add(s.preguntas, p).0) && r.value.1 == s.preguntas.next
  {
    if !FitsPregunta(p) then Failure(ColumnRejected)
    else if p.encuestaId !in s.encuestas.rows then Failure(MissingReference)
    else
      var (t, id) := Add(s.preguntas, p);
      Success((s.(preguntas := t), id))
  }

  function InsertOpcion(s: Store, o: Opcion): (r: Saved)
    ensures r.Success? <==> FitsOpcion(o) && o.preguntaId in s.preguntas.rows
    ensures r.Success? ==> r.value.0 == s.(opciones := Add(s.opciones, o).0) && r.value.1 == s.opciones.next
  {
    if !FitsOpcion(o) then Failure(ColumnRejected)
    else if o.preguntaId !in s.preguntas.rows then Failure(MissingReference)
    else
      var (t, id) := Add(s.opciones, o);
      Success((s.(opciones := t), id))
  }

  /** Saving a header: its columns first, then the unique index, then the foreign keys. */
  function InsertRespuesta(s: Store, h: Respuesta): (r: Saved)
    ensures r.Success? <==> FitsRespuesta(h) && !ResponderTaken(s, h.encuestaId, h.usuarioAsesorId) && HeaderResolves(s, h)
    ensures FitsRespuesta(h) && ResponderTaken(s, h.encuestaId, h.usuarioAsesorId) ==> r == Failure(DuplicateKey)
    ensures r.Success? ==> r.value.0 == s.(respuestas := Add(s.respuestas, h).0) && r.value.1 == s.respuestas.next
  {
    if !FitsRespuesta(h) then Failure(ColumnRejected)
    else if ResponderTaken(s, h.encuestaId, h.usuarioAsesorId) then Failure(DuplicateKey)
    else if !HeaderResolves(s, h) then Failure(MissingReference)
    else
      var (t, id) := Add(s.respuestas, h);
      Success((s.(respuestas := t), id))
  }

  function InsertDetalle(s: Store, d: Detalle): (r: Saved)
    ensures r.Success? <==> DetailResolves(s, d)
    ensures r.Success? ==> r.value.0 == s.(detalles := Add(s.detalles, d).0) && r.value.1 == s.detalles.next
  {
    if !DetailResolves(s, d) then Failure(MissingReference)
    else
      var (t, id) := Add(s.detalles, d);
      Success((s.(detalles := t), id))
  }

  function InsertSucursal(s: Store, b: Sucursal): (r: Saved)
    ensures r.Success? <==> FitsSucursal(b) && !CodigoTaken(s, b.codigoSucursal)
    ensures r.Success? ==> r.value.0 == s.(sucursales := Add(s.sucursales, b).0) && r.value.1 == s.sucursales.next
  {
    if !FitsSucursal(b) then Failure(ColumnRejected)
    else if CodigoTaken(s, b.codigoSucursal) then Failure(DuplicateKey)
    else
      var (t, id) := Add(s.sucursales, b);
      Success((s.(sucursales := t), id))
  }

  /** Saving a modified branch: its columns, then the unique index against the other rows. */
  function UpdateSucursal(s: Store, id: int, b: Sucursal): (r: Result<Store, StoreError>)
    ensures r.Success? <==> id in s.sucursales.rows && FitsSucursal(b) && !CodigoTakenByOther(s, b.codigoSucursal, id)
    ensures r.Success? ==> r.value == s.(sucursales := Put(s.sucursales, id, b))
  {
    if id !in s.sucursales.rows then Failure(NotFound)
    else if !FitsSucursal(b) then Failure(ColumnRejected)
    else if CodigoTakenByOther(s, b.codigoSucursal, id) then Failure(DuplicateKey)
    else Success(s.(sucursales := Put(s.sucursales, id, b)))
  }

  // ---------------------------------------------------------------------------
  // Saves keep the invariant
  // ---------------------------------------------------------------------------

  /** A successful user insert keeps every index, reference and column constraint. */
  lemma InsertUsuarioConsistent(s: Store, u: Usuario)
    requires Consistent(s) && InsertUsuario(s, u).Success?
    ensures Consistent(InsertUsuario(s, u).value.0)
  {
    var (t, _) := Add(s.usuarios, u);
    AddUnique(s.usuarios, EmailOf, u);
    AddAllRows(s.usuarios, FitsUsuario, u);
    GrowRefs(s.encuestas, AdminOf, s.usuarios.rows.Keys, t.rows.Keys);
    GrowRefs(s.respuestas, AdvisorOf, s.usuarios.rows.Keys, t.rows.Keys);
  }

  /** A successful survey insert keeps the invariant. */
  lemma InsertEncuestaConsistent(s: Store, e: Encuesta)
    requires Consistent(s) && InsertEncuesta(s, e).Success?
    ensures Consistent(InsertEncuesta(s, e).value.0)
  {
    var (t, _) := Add(s.encuestas, e);
    AddRefs(s.encuestas, AdminOf, s.usuarios.rows.Keys, e);
    AddAllRows(s.encuestas, FitsEncuesta, e);
    GrowRefs(s.preguntas, SurveyOfQuestion, s.encuestas.rows.Keys, t.rows.Keys);
    GrowRefs(s.respuestas, SurveyOfHeader, s.encuestas.rows.Keys, t.rows.Keys);
  }

  /** A successful question insert keeps the invariant. */
  lemma InsertPreguntaConsistent(s: Store, p: Pregunta)
    requires Consistent(s) && InsertPregunta(s, p).Success?
    ensures Consistent(InsertPregunta(s, p).value.0)
  {
    var (t, _) := Add(s.preguntas, p);
    AddRefs(s.preguntas, SurveyOfQuestion, s.encuestas.rows.Keys, p);
    AddAllRows(s.preguntas, FitsPregunta, p);
    GrowRefs(s.opciones, QuestionOfOption, s.preguntas.rows.Keys, t.rows.Keys);
    GrowRefs(s.detalles, QuestionOfDetail, s.preguntas.rows.Keys, t.rows.Keys);
  }

  /** A successful option insert keeps the invariant. */
  lemma InsertOpcionConsistent(s: Store, o: Opcion)
    requires Consistent(s) && InsertOpcion(s, o).Success?
    ensures Consistent(InsertOpcion(s, o).value.0)
  {
    var (t, _) := Add(s.opciones, o);
    AddRefs(s.opciones, QuestionOfOption, s.preguntas.rows.Keys, o);
    AddAllRows(s.opciones, FitsOpcion, o);
    GrowRefs(s.detalles, OptionOf, s.opciones.rows.Keys, t.rows.Keys);
  }

  /** A successful header insert keeps the invariant, the unique responder index included. */
  lemma InsertRespuestaConsistent(s: Store, h: Respuesta)
    requires Consistent(s) && InsertRespuesta(s, h).Success?
    ensures Consistent(InsertRespuesta(s, h).value.0)
  {
    var (t, _) := Add(s.respuestas, h);
    AddUnique(s.respuestas, ResponderOf, h);
    AddRefs(s.respuestas, SurveyOfHeader, s.encuestas.rows.Keys, h);
    AddRefs(s.respuestas, AdvisorOf, s.usuarios.rows.Keys, h);
    AddRefs(s.respuestas, BranchOf, s.sucursales.rows.Keys, h);
    AddAllRows(s.respuestas, FitsRespuesta, h);
    GrowRefs(s.detalles, HeaderOf, s.respuestas.rows.Keys, t.rows.Keys);
  }

  /** A successful detail insert keeps the invariant. */
  lemma InsertDetalleConsistent(s: Store, d: Detalle)
    requires Consistent(s) && InsertDetalle(s, d).Success?
    ensures Consistent(InsertDetalle(s, d).value.0)
  {
    AddRefs(s.detalles, HeaderOf, s.respuestas.rows.Keys, d);
    AddRefs(s.detalles, QuestionOfDetail, s.preguntas.rows.Keys, d);
    AddRefs(s.detalles, OptionOf, s.opciones.rows.Keys, d);
  }

  /** A successful branch insert keeps the invariant, the unique code index included. */
  lemma InsertSucursalConsistent(s: Store, b: Sucursal)
    requires Consistent(s) && InsertSucursal(s, b).Success?
    ensures Consistent(InsertSucursal(s, b).value.0)
  {
    var (t, _) := Add(s.sucursales, b);
    AddUnique(s.sucursales, CodigoOf, b);
    AddAllRows(s.sucursales, FitsSucursal, b);
    GrowRefs(s.respuestas, BranchOf, s.sucursales.rows.Keys, t.rows.Keys);
  }

  /** A successful branch update keeps the invariant. */
  lemma UpdateSucursalConsistent(s: Store, id: int, b: Sucursal)
    requires Consistent(s) && UpdateSucursal(s, id, b).Success?
    ensures Consistent(UpdateSucursal(s, id, b).value)
  {
    var t := Put(s.sucursales, id, b);
    assert UpdateSucursal(s, id, b).value == s.(sucursales := t);
    assert t.rows.Keys == s.sucursales.rows.Keys;
    PutBranchUnique(s, id, b);
    assert AllRows(t, FitsSucursal);
  }

  lemma PutBranchUnique(s: Store, id: int, b: Sucursal)
    requires UniqueBy(s.sucursales, CodigoOf) && id in s.sucursales.rows
    requires !CodigoTakenByOther(s, b.codigoSucursal, id)
    ensures UniqueBy(Put(s.sucursales, id, b), CodigoOf)
  {
    var t := Put(s.sucursales, id, b);
    forall x, y | x in t.rows && y in t.rows && x != y ensures CodigoOf(t.rows[x]) != CodigoOf(t.rows[y]) {
      if x == id {
        assert t.rows[y] == s.sucursales.rows[y];
      } else if y == id {
        assert t.rows[x] == s.sucursales.rows[x];
      }
    }
  }

  // ---------------------------------------------------------------------------
  // Deletes and the cascade rules
  // ---------------------------------------------------------------------------

  /** Deleting a header deletes its detail rows with it. */
  function DeleteRespuesta(s: Store, id: int): (r: Result<Store, StoreError>)
    ensures r.Success? <==> id in s.respuestas.rows
    ensures r.Success? ==> r.value.respuestas.rows == s.respuestas.rows - {id}
    ensures r.Success? ==> forall d :: d in r.value.detalles.rows <==>
                              d in s.detalles.rows && s.detalles.rows[d].respuestaEncuestaId != id
    ensures r.Success? ==> r.value.encuestas == s.encuestas && r.value.usuarios == s.usuarios
                           && r.value.preguntas == s.preguntas && r.value.opciones == s.opciones
                           && r.value.sucursales == s.sucursales
  {
    if id !in s.respuestas.rows then Failure(NotFound)
    else
      Success(s.(respuestas := Keep(s.respuestas, h => h != id),
                 detalles := Keep(s.detalles, d => d in s.detalles.rows && s.detalles.rows[d].respuestaEncuestaId != id)))
  }

  lemma DeleteRespuestaConsistent(s: Store, id: int)
    requires Consistent(s) && DeleteRespuesta(s, id).Success?
    ensures Consistent(DeleteRespuesta(s, id).value)
  {
    var s' := DeleteRespuesta(s, id).value;
    KeepUnique(s.respuestas, ResponderOf, h => h != id);
    KeepAllRows(s.respuestas, FitsRespuesta, h => h != id);
    var keepD := d => d in s.detalles.rows && s.detalles.rows[d].respuestaEncuestaId != id;
    KeepRefs(s.respuestas, SurveyOfHeader, s.encuestas.rows.Keys, h => h != id);
    KeepRefs(s.respuestas, AdvisorOf, s.usuarios.rows.Keys, h => h != id);
    KeepRefs(s.respuestas, BranchOf, s.sucursales.rows.Keys, h => h != id);
    KeepRefs(s.detalles, QuestionOfDetail, s.preguntas.rows.Keys, keepD);
    KeepRefs(s.detalles, OptionOf, s.opciones.rows.Keys, keepD);
    assert RefsIn(s'.detalles, HeaderOf, s'.respuestas.rows.Keys) by {
      forall d | d in s'.detalles.rows ensures Resolves(HeaderOf(s'.detalles.rows[d]), s'.respuestas.rows.Keys) {
        assert Resolves(HeaderOf(s.detalles.rows[d]), s.respuestas.rows.Keys);
      }
    }
  }

  /** A detail row names the question, or an option of it. */
  predicate NamesQuestion(s: Store, d: Detalle, preguntaId: int)
  {
    d.preguntaId == preguntaId
    || (d.opcionId.Some? && d.opcionId.value in s.opciones.rows && s.opciones.rows[d.opcionId.value].preguntaId == preguntaId)
  }

  predicate QuestionReferenced(s: Store, preguntaId: int)
  {
    exists d :: d in s.detalles.rows && NamesQuestion(s, s.detalles.rows[d], preguntaId)
  }

  /** Deleting a question deletes its options; detail rows do not cascade, so a question
      that a detail row names, directly or through an option, cannot be deleted. */
  function DeletePregunta(s: Store, id: int): (r: Result<Store, StoreError>)
    ensures r.Success? <==> id in s.preguntas.rows && !QuestionReferenced(s, id)
    ensures r.Success? ==> r.value.preguntas.rows == s.preguntas.rows - {id}
    ensures r.Success? ==> forall o :: o in r.value.opciones.rows <==>
                              o in s.opciones.rows && s.opciones.rows[o].preguntaId != id
    ensures r.Success? ==> r.value.detalles == s.detalles && r.value.respuestas == s.respuestas
                           && r.value.encuestas == s.encuestas
  {
    if id !in s.preguntas.rows then Failure(NotFound)
    else if QuestionReferenced(s, id) then Failure(StillReferenced)
    else
      Success(s.(preguntas := Keep(s.preguntas, p => p != id),
                 opciones := Keep(s.opciones, o => o in s.opciones.rows && s.opciones.rows[o].preguntaId != id)))
  }

  lemma DeletePreguntaConsistent(s: Store, id: int)
    requires Consistent(s) && DeletePregunta(s, id).Success?
    ensures Consistent(DeletePregunta(s, id).value)
  {
    var s' := DeletePregunta(s, id).value;
    var keepO := o => o in s.opciones.rows && s.opciones.rows[o].preguntaId != id;
    KeepAllRows(s.preguntas, FitsPregunta, p => p != id);
    KeepAllRows(s.opciones, FitsOpcion, keepO);
    KeepRefs(s.preguntas, SurveyOfQuestion, s.encuestas.rows.Keys, p => p != id);
    assert RefsIn(s'.opciones, QuestionOfOption, s'.preguntas.rows.Keys) by {
      forall o | o in s'.opciones.rows ensures Resolves(QuestionOfOption(s'.opciones.rows[o]), s'.preguntas.rows.Keys) {
        assert Resolves(QuestionOfOption(s.opciones.rows[o]), s.preguntas.rows.Keys);
      }
    }
    assert RefsIn(s.detalles, QuestionOfDetail, s'.preguntas.rows.Keys) by {
      forall d | d in s.detalles.rows ensures Resolves(QuestionOfDetail(s.detalles.rows[d]), s'.preguntas.rows.Keys) {
        assert !NamesQuestion(s, s.detalles.rows[d], id);
        assert Resolves(QuestionOfDetail(s.detalles.rows[d]), s.preguntas.rows.Keys);
      }
    }
    assert RefsIn(s.detalles, OptionOf, s'.opciones.rows.Keys) by {
      forall d | d in s.detalles.rows ensures Resolves(OptionOf(s.detalles.rows[d]), s'.opciones.rows.Keys) {
        assert !NamesQuestion(s, s.detalles.rows[d], id);
        assert Resolves(OptionOf(s.detalles.rows[d]), s.opciones.rows.Keys);
      }
    }
  }

  predicate SurveyHasResponses(s: Store, encuestaId: int)
  {
    exists h :: h in s.respuestas.rows && s.respuestas.rows[h].encuestaId == encuestaId
  }

  /** Some question of the survey is named by a detail row, directly or through an option. */
  predicate SurveyQuestionsReferenced(s: Store, encuestaId: int)
  {
    exists p :: p in s.preguntas.rows && s.preguntas.rows[p].encuestaId == encuestaId && QuestionReferenced(s, p)
  }

  /** Deleting a survey deletes its questions and their options. Its headers do not
      cascade, and neither do detail rows naming its questions, so either blocks it. */
  function DeleteEncuesta(s: Store, id: int): (r: Result<Store, StoreError>)
    ensures r.Success? <==> id in s.encuestas.rows && !SurveyHasResponses(s, id) && !SurveyQuestionsReferenced(s, id)
    ensures r.Success? ==> r.value.encuestas.rows == s.encuestas.rows - {id}
    ensures r.Success? ==> forall p :: p in r.value.preguntas.rows <==>
                              p in s.preguntas.rows && s.preguntas.rows[p].encuestaId != id
    ensures r.Success? ==> forall o :: o in r.value.opciones.rows <==>
                              o in s.opciones.rows && s.opciones.rows[o].preguntaId in r.value.preguntas.rows
    ensures r.Success? ==> r.value.respuestas == s.respuestas && r.value.detalles == s.detalles
  {
    if id !in s.encuestas.rows then Failure(NotFound)
    else if SurveyHasResponses(s, id) || SurveyQuestionsReferenced(s, id) then Failure(StillReferenced)
    else
      var preguntas := Keep(s.preguntas, p => p in s.preguntas.rows && s.preguntas.rows[p].encuestaId != id);
      var opciones := Keep(s.opciones, o => o in s.opciones.rows && s.opciones.rows[o].preguntaId in preguntas.rows);
      Success(s.(encuestas := Keep(s.encuestas, e => e != id), preguntas := preguntas, opciones := opciones))
  }

  lemma DeleteEncuestaConsistent(s: Store, id: int)
    requires Consistent(s) && DeleteEncuesta(s, id).Success?
    ensures Consistent(DeleteEncuesta(s, id).value)
  {
    var s' := DeleteEncuesta(s, id).value;
    KeepAllRows(s.encuestas, FitsEncuesta, e => e != id);
    KeepRefs(s.encuestas, AdminOf, s.usuarios.rows.Keys, e => e != id);
    assert AllRows(s'.preguntas, FitsPregunta);
    assert AllRows(s'.opciones, FitsOpcion);
    assert RefsIn(s'.preguntas, SurveyOfQuestion, s'.encuestas.rows.Keys) by {
      forall p | p in s'.preguntas.rows ensures Resolves(SurveyOfQuestion(s'.preguntas.rows[p]), s'.encuestas.rows.Keys) {
        assert Resolves(SurveyOfQuestion(s.preguntas.rows[p]), s.encuestas.rows.Keys);
      }
    }
    assert RefsIn(s.respuestas, SurveyOfHeader, s'.encuestas.rows.Keys) by {
      forall h | h in s.respuestas.rows ensures Resolves(SurveyOfHeader(s.respuestas.rows[h]), s'.encuestas.rows.Keys) {
        assert Resolves(SurveyOfHeader(s.respuestas.rows[h]), s.encuestas.rows.Keys);
      }
    }
    assert RefsIn(s.detalles, QuestionOfDetail, s'.preguntas.rows.Keys) by {
      forall d | d in s.detalles.rows ensures Resolves(QuestionOfDetail(s.detalles.rows[d]), s'.preguntas.rows.Keys) {
        var row := s.detalles.rows[d];
        assert Resolves(QuestionOfDetail(row), s.preguntas.rows.Keys);
        assert NamesQuestion(s, row, row.preguntaId);
      }
    }
    assert RefsIn(s.detalles, OptionOf, s'.opciones.rows.Keys) by {
      forall d | d in s.detalles.rows ensures Resolves(OptionOf(s.detalles.rows[d]), s'.opciones.rows.Keys) {
        var row := s.detalles.rows[d];
        assert Resolves(OptionOf(row), s.opciones.rows.Keys);
        if row.opcionId.Some? {
          var q := s.opciones.rows[row.opcionId.value].preguntaId;
          assert Resolves(QuestionOfOption(s.opciones.rows[row.opcionId.value]), s.preguntas.rows.Keys);
          assert NamesQuestion(s, row, q);
        }
      }
    }
  }

  predicate UserReferenced(s: Store, usuarioId: int)
  {
    (exists e :: e in s.encuestas.rows && s.encuestas.rows[e].usuarioAdminId == usuarioId)
    || (exists h :: h in s.respuestas.rows && s.respuestas.rows[h].usuarioAsesorId == usuarioId)
  }

  /** A user who created a survey or submitted a response cannot be deleted. */
  function DeleteUsuario(s: Store, id: int): (r: Result<Store, StoreError>)
    ensures r.Success? <==> id in s.usuarios.rows && !UserReferenced(s, id)
    ensures r.Success? ==> r.value == s.(usuarios := Keep(s.usuarios, u => u != id))
  {
    if id !in s.usuarios.rows then Failure(NotFound)
    else if UserReferenced(s, id) then Failure(StillReferenced)
    else Success(s.(usuarios := Keep(s.usuarios, u => u != id)))
  }

  lemma DeleteUsuarioConsistent(s: Store, id: int)
    requires Consistent(s) && DeleteUsuario(s, id).Success?
    ensures Consistent(DeleteUsuario(s, id).value)
  {
    var t := Keep(s.usuarios, u => u != id);
    KeepUnique(s.usuarios, EmailOf, u => u != id);
    KeepAllRows(s.usuarios, FitsUsuario, u => u != id);
    assert RefsIn(s.encuestas, AdminOf, t.rows.Keys) by {
      forall e | e in s.encuestas.rows ensures Resolves(AdminOf(s.encuestas.rows[e]), t.rows.Keys) {
        assert Resolves(AdminOf(s.encuestas.rows[e]), s.usuarios.rows.Keys);
      }
    }
    assert RefsIn(s.respuestas, AdvisorOf, t.rows.Keys) by {
      forall h | h in s.respuestas.rows ensures Resolves(AdvisorOf(s.respuestas.rows[h]), t.rows.Keys) {
        assert Resolves(AdvisorOf(s.respuestas.rows[h]), s.usuarios.rows.Keys);
      }
    }
  }

  predicate BranchReferenced(s: Store, sucursalId: int)
  {
    exists h :: h in s.respuestas.rows && s.respuestas.rows[h].sucursalId == Some(sucursalId)
  }

  /** A branch named by some header cannot be deleted. */
  function DeleteSucursal(s: Store, id: int): (r: Result<Store, StoreError>)
    ensures r.Success? <==> id in s.sucursales.rows && !BranchReferenced(s, id)
    ensures r.Success? ==> r.value == s.(sucursales := Keep(s.sucursales, b => b != id))
  {
    if id !in s.sucursales.rows then Failure(NotFound)
    else if BranchReferenced(s, id) then Failure(StillReferenced)
    else Success(s.(sucursales := Keep(s.sucursales, b => b != id)))
  }

  lemma DeleteSucursalConsistent(s: Store, id: int)
    requires Consistent(s) && DeleteSucursal(s, id).Success?
    ensures Consistent(DeleteSucursal(s, id).value)
  {
    var t := Keep(s.sucursales, b => b != id);
    KeepUnique(s.sucursales, CodigoOf, b => b != id);
    KeepAllRows(s.sucursales, FitsSucursal, b => b != id);
    assert RefsIn(s.respuestas, BranchOf, t.rows.Keys) by {
      forall h | h in s.respuestas.rows ensures Resolves(BranchOf(s.respuestas.rows[h]), t.rows.Keys) {
        assert Resolves(BranchOf(s.respuestas.rows[h]), s.sucursales.rows.Keys);
      }
    }
  }

  // ---------------------------------------------------------------------------
  // Batches: several rows added before one SaveChanges
  // ---------------------------------------------------------------------------

  /** Identity inserts of `rows` in order: the i-th row gets the id `t.next + i`. */
  function AddAll<T>(t: Table<T>, rows: seq<T>): (r: Table<T>)
    ensures r.next == t.next + |rows|
    ensures forall id :: id in r.rows <==> id in t.rows || t.next <= id < t.next + |rows|
    ensures forall id :: id in t.rows ==> r.rows[id] == t.rows[id]
    ensures forall i :: 0 <= i < |rows| ==> r.rows[t.next + i] == rows[i]
    decreases |rows|
  {
    if rows == [] then t
    else
      var r := AddAll(Add(t, rows[0]).0, rows[1..]);
      r
  }

  /** The row a batch puts under one of its new ids. */
  lemma AddAllAt<T>(t: Table<T>, rows: seq<T>, id: int)
    requires id in AddAll(t, rows).rows && id !in t.rows
    ensures t.next <= id < t.next + |rows|
    ensures AddAll(t, rows).rows[id] == rows[id - t.next]
  {
    assert AddAll(t, rows).rows[t.next + (id - t.next)] == rows[id - t.next];
  }

  /** Adding two batches one after the other is adding their concatenation. */
  lemma AddAllAppend<T>(t: Table<T>, a: seq<T>, b: seq<T>)
    ensures AddAll(AddAll(t, a), b) == AddAll(t, a + b)
  {
    var x := AddAll(AddAll(t, a), b);
    var y := AddAll(t, a + b);
    assert forall id :: id in x.rows <==> id in y.rows;
    forall id | id in x.rows ensures x.rows[id] == y.rows[id] {
      if id >= t.next + |a| {
        assert (a + b)[id - t.next] == b[id - t.next - |a|];
      } else if id >= t.next {
        assert (a + b)[id - t.next] == a[id - t.next];
      }
    }
    assert x.rows == y.rows;
  }

  /** Adding one row and then a batch is adding the batch with the row in front. */
  lemma AddAllCons<T>(t: Table<T>, row: T, rest: seq<T>)
    ensures AddAll(Add(t, row).0, rest) == AddAll(t, [row] + rest)
  {
    assert ([row] + rest)[1..] == rest;
  }

  /** The detail rows of one submission, saved together: every row must resolve. */
  function InsertDetalles(s: Store, ds: seq<Detalle>): (r: Result<Store, StoreError>)
    ensures r.Success? <==> forall i :: 0 <= i < |ds| ==> DetailResolves(s, ds[i])
    ensures r.Success? ==> r.value == s.(detalles := AddAll(s.detalles, ds))
    ensures r.Failure? ==> r.error == MissingReference
    decreases |ds|
  {
    if ds == [] then Success(s)
    else
      match InsertDetalle(s, ds[0])
      case Failure(e) => Failure(e)
      case Success((s1, _)) =>
        assert forall d :: DetailResolves(s1, d) == DetailResolves(s, d);
        InsertDetalles(s1, ds[1..])
  }

  lemma {:induction false} InsertDetallesConsistent(s: Store, ds: seq<Detalle>)
    requires Consistent(s) && InsertDetalles(s, ds).Success?
    ensures Consistent(InsertDetalles(s, ds).value)
    decreases |ds|
  {
    if ds != [] {
      InsertDetalleConsistent(s, ds[0]);
      var s1 := InsertDetalle(s, ds[0]).value.0;
      InsertDetallesConsistent(s1, ds[1..]);
    }
  }

  // ---------------------------------------------------------------------------
  // Ordered reads
  // ---------------------------------------------------------------------------

  /** An entry of the table sits at some position of the id-order read. */
  lemma EntryListed<T(!new)>(t: Table<T>, id: int)
    requires id in t.rows
    ensures exists j :: 0 <= j < |Entries(t)| && Entries(t)[j] == Entry(id, t.rows[id])
  {
    assert Entry(id, t.rows[id]) in Entries(t);
  }

  /** `FirstOrDefault(p)` over a table read in id order. */
  function FirstEntry<T(!new)>(t: Table<T>, p: Entry<T> -> bool): (r: Option<Entry<T>>)
  {
    var xs := Entries(t);
    match Sequences.FirstIndex(xs, p)
    case None => None
    case Some(i) => Some(xs[i])
  }

  /** The first match is a row of the table satisfying `p` with no match at a smaller
      id, and there is none exactly when no row satisfies `p`. */
  lemma FirstEntryFound<T(!new)>(t: Table<T>, p: Entry<T> -> bool)
    ensures var r := FirstEntry(t, p);
            (r.Some? ==> r.value.id in t.rows && t.rows[r.value.id] == r.value.row && p(r.value))
            && (r.Some? ==> forall id :: id in t.rows && id < r.value.id ==> !p(Entry(id, t.rows[id])))
            && (r.None? <==> forall id :: id in t.rows ==> !p(Entry(id, t.rows[id])))
  {
    var xs := Entries(t);
    var k := Sequences.FirstIndex(xs, p);
    if k.Some? {
      assert xs[k.value] in xs;
      FirstEntryEarlier(t, p, k.value);
    } else {
      FirstEntryNone(t, p);
    }
  }

  lemma FirstEntryEarlier<T(!new)>(t: Table<T>, p: Entry<T> -> bool, k: nat)
    requires k < |Entries(t)| && forall j :: 0 <= j < k ==> !p(Entries(t)[j])
    ensures forall id :: id in t.rows && id < Entries(t)[k].id ==> !p(Entry(id, t.rows[id]))
  {
    var xs := Entries(t);
    forall id | id in t.rows && id < xs[k].id
      ensures !p(Entry(id, t.rows[id]))
    {
      EntryListed(t, id);
      var j :| 0 <= j < |xs| && xs[j] == Entry(id, t.rows[id]);
      assert j < k;
    }
  }

  lemma FirstEntryNone<T(!new)>(t: Table<T>, p: Entry<T> -> bool)
    requires forall j :: 0 <= j < |Entries(t)| ==> !p(Entries(t)[j])
    ensures forall id :: id in t.rows ==> !p(Entry(id, t.rows[id]))
  {
    forall id | id in t.rows
      ensures !p(Entry(id, t.rows[id]))
    {
      EntryListed(t, id);
    }
  }

  function EntryId<T>(e: Entry<T>): int { e.id }

  /** The id-order read lists every id once. */
  lemma EntriesKeysDistinct<T(!new)>(t: Table<T>)
    ensures Sequences.KeysDistinct(Entries(t), EntryId)
  {
  }

  lemma EntriesIncreasing<T(!new)>(t: Table<T>)
    ensures Sequences.IncreasingBy(Entries(t), EntryId)
  {
  }

  /** Filtering the id-order read keeps exactly one entry per matching row. */
  lemma CountRows<T(!new)>(t: Table<T>, p: Entry<T> -> bool)
    ensures |Sequences.Filter(Entries(t), p)| == |set id | id in t.rows && p(Entry(id, t.rows[id]))|
  {
    var xs := Sequences.Filter(Entries(t), p);
    EntriesKeysDistinct(t);
    Sequences.FilterKeysDistinct(Entries(t), p, EntryId);
    Sequences.KeysDistinctCard(xs, EntryId);
    var ids := Sequences.KeySet(xs, EntryId);
    var rows := set id | id in t.rows && p(Entry(id, t.rows[id]));
    forall id | id in rows ensures id in ids {
      assert EntryId(Entry(id, t.rows[id])) == id;
    }
    forall id | id in ids ensures id in rows {
      var x :| x in xs && EntryId(x) == id;
      assert x == Entry(id, t.rows[id]);
    }
    assert ids == rows;
  }

  /** Lifts a test on rows to entries. */
  function RowKeep<T>(keep: T -> bool): Entry<T> -> bool
  {
    (e: Entry<T>) => keep(e.row)
  }

  /** The ids of the rows that pass `keep`. */
  ghost function KeptIds<T>(t: Table<T>, keep: T -> bool): set<int>
  {
    set id | id in t.rows && keep(t.rows[id])
  }

  lemma CountKept<T(!new)>(t: Table<T>, keep: T -> bool)
    ensures |Sequences.Filter(Entries(t), RowKeep(keep))| == |KeptIds(t, keep)|
  {
    CountRows(t, RowKeep(keep));
    var a := set id | id in t.rows && RowKeep(keep)(Entry(id, t.rows[id]));
    assert a == KeptIds(t, keep);
  }

  /** The id-order read filtered by a test on rows: each kept row once. */
  lemma FilteredRead<T(!new)>(t: Table<T>, keep: T -> bool)
    ensures var mine := Sequences.Filter(Entries(t), RowKeep(keep));
            && Sequences.KeysDistinct(mine, EntryId)
            && |mine| == |KeptIds(t, keep)|
            && forall e :: e in mine <==> e.id in t.rows && t.rows[e.id] == e.row && keep(e.row)
  {
    CountKept(t, keep);
    EntriesKeysDistinct(t);
    Sequences.FilterKeysDistinct(Entries(t), RowKeep(keep), EntryId);
  }

  /** A reordering of the rows of a filtered read still lists each id once. */
  lemma ReorderedKeysDistinct<T(!new)>(t: Table<T>, mine: seq<Entry<T>>, sorted: seq<Entry<T>>)
    requires Sequences.KeysDistinct(mine, EntryId)
    requires multiset(sorted) == multiset(mine)
    requires forall e :: e in mine ==> e.id in t.rows && t.rows[e.id] == e.row
    ensures Sequences.KeysDistinct(sorted, EntryId)
    ensures forall e :: e in sorted <==> e in mine
  {
    Sequences.SameElements(sorted, mine);
    Sequences.PermutationDistinct(sorted, mine);
    forall i, j | 0 <= i < j < |sorted| ensures EntryId(sorted[i]) != EntryId(sorted[j]) {
      assert sorted[i] in sorted && sorted[j] in sorted;
      assert sorted[i] != sorted[j];
    }
  }

  /** Compares entries by an integer key of their rows. */
  function ByKey<T>(key: T -> int): (Entry<T>, Entry<T>) -> bool
  {
    (a: Entry<T>, b: Entry<T>) => key(a.row) <= key(b.row)
  }

  lemma ByKeyTotal<T(!new)>(key: T -> int)
    ensures Sequences.TotalPreorder(ByKey(key))
  {
  }

  /** The rows satisfying `keep` in `OrderBy(key)` order: exactly those rows, sorted by
      the key. The database leaves the order of rows with equal keys unspecified; the
      model settles it one way, and the contract says nothing about it. */
  function SortedRows<T(!new)>(t: Table<T>, keep: T -> bool, key: T -> int): (r: seq<Entry<T>>)
    ensures forall i, j :: 0 <= i < j < |r| ==> key(r[i].row) <= key(r[j].row)
    ensures forall e :: e in r <==> e.id in t.rows && t.rows[e.id] == e.row && keep(e.row)
    ensures |r| == |KeptIds(t, keep)|
    ensures Sequences.KeysDistinct(r, EntryId)
  {
    ByKeyTotal(key);
    var mine := Sequences.Filter(Entries(t), RowKeep(keep));
    var sorted := Sequences.SortBy(mine, ByKey(key));
    FilteredRead(t, keep);
    ReorderedKeysDistinct(t, mine, sorted);
    sorted
  }

  /** Compares entries by a comparison of their rows. */
  function ByRow<T>(leq: (T, T) -> bool): (Entry<T>, Entry<T>) -> bool
  {
    (a: Entry<T>, b: Entry<T>) => leq(a.row, b.row)
  }

  lemma ByRowTotal<T(!new)>(leq: (T, T) -> bool)
    requires Sequences.TotalPreorder(leq)
    ensures Sequences.TotalPreorder(ByRow(leq))
  {
    var c := ByRow(leq);
    forall a: Entry<T>, b: Entry<T> ensures c(a, b) || c(b, a) {
      assert leq(a.row, b.row) || leq(b.row, a.row);
    }
    forall a: Entry<T>, b: Entry<T>, d: Entry<T> | c(a, b) && c(b, d) ensures c(a, d) {
      assert leq(a.row, b.row) && leq(b.row, d.row);
    }
  }

  /** The rows satisfying `keep`, sorted by `leq`: exactly those rows, in `leq` order.
      As for `SortedRows`, the order among rows `leq` ties is left open. */
  function SortedRowsBy<T(!new)>(t: Table<T>, keep: T -> bool, leq: (T, T) -> bool): (r: seq<Entry<T>>)
    requires Sequences.TotalPreorder(leq)
    ensures forall i, j :: 0 <= i < j < |r| ==> leq(r[i].row, r[j].row)
    ensures forall e :: e in r <==> e.id in t.rows && t.rows[e.id] == e.row && keep(e.row)
    ensures |r| == |KeptIds(t, keep)|
    ensures Sequences.KeysDistinct(r, EntryId)
  {
    ByRowTotal(leq);
    var mine := Sequences.Filter(Entries(t), RowKeep(keep));
    var sorted := Sequences.SortBy(mine, ByRow(leq));
    FilteredRead(t, keep);
    ReorderedKeysDistinct(t, mine, sorted);
    sorted
  }

  /** `Select((e) => view(e.Id, e))` over entries. */
  function Project<T, U>(rows: seq<Entry<T>>, view: (int, T) -> U): (r: seq<U>)
    ensures |r| == |rows|
    ensures forall i :: 0 <= i < |rows| ==> r[i] == view(rows[i].id, rows[i].row)
  {
    seq(|rows|, i requires 0 <= i < |rows| => view(rows[i].id, rows[i].row))
  }

  /** What a projection holds: the view of each entry, and nothing else. */
  lemma ProjectMembers<T, U>(rows: seq<Entry<T>>, view: (int, T) -> U)
    ensures forall e :: e in rows ==> view(e.id, e.row) in Project(rows, view)
    ensures forall y :: y in Project(rows, view) ==> exists e :: e in rows && y == view(e.id, e.row)
  {
    var r := Project(rows, view);
    forall e | e in rows ensures view(e.id, e.row) in r {
      var i :| 0 <= i < |rows| && rows[i] == e;
      assert r[i] == view(e.id, e.row);
    }
    forall y | y in r ensures exists e :: e in rows && y == view(e.id, e.row) {
      var i :| 0 <= i < |r| && r[i] == y;
      assert rows[i] in rows;
    }
  }
}
