/** The persisted entities of the survey database, their defaults, the data
    annotations the request classes share with them, and what the database refuses
    when a row is saved. Rows carry no id:
    the store keys every table by id. Navigation collections are left to the store,
    which answers them by filtering on foreign keys. */
module Entities {
  import opened Wrappers
  import opened Text

  /** A `DateTime` as its calendar fields, down to whole seconds; the fraction of a
      second is not kept. */
  datatype Timestamp = Timestamp(year: int, month: int, day: int, hour: int, minute: int, second: int)
  {
    predicate Valid()
    {
      1 <= year <= 9999 && 1 <= month <= 12 && 1 <= day <= 31
      && 0 <= hour < 24 && 0 <= minute < 60 && 0 <= second < 60
    }

    /** A number that grows with the fields read most significant first, so that
        comparing two valid timestamps is comparing their ranks. */
    function Rank(): int
    {
      ((((year * 12 + month) * 32 + day) * 24 + hour) * 60 + minute) * 60 + second
    }
  }

  /** `a <= b` on `DateTime`. */
  predicate NotAfter(a: Timestamp, b: Timestamp)
  {
    a.Rank() <= b.Rank()
  }

  // Values of `RespuestaEncuesta.Estado`
  const EstadoIniciada: String := "iniciada"
  const EstadoCompletada: String := "completada"
  const EstadoAbandonada: String := "abandonada"

  /** `Pregunta.TipoPregunta` of free-text questions. */
  const TipoTextoLibre: String := "texto_libre"

  datatype Usuario = Usuario(
    nombre: String,
    email: String,
    password: Option<String>,
    tipoUsuario: String,
    fechaCreacion: Timestamp,
    activo: bool)

  datatype Encuesta = Encuesta(
    titulo: String,
    descripcion: Option<String>,
    usuarioAdminId: int,
    fechaCreacion: Timestamp,
    fechaLimite: Option<Timestamp>,
    activa: bool)

  datatype Pregunta = Pregunta(
    encuestaId: int,
    textoPregunta: String,
    tipoPregunta: String,
    obligatoria: bool,
    orden: int)

  datatype Opcion = Opcion(
    preguntaId: int,
    textoOpcion: String,
    valor: Option<String>,
    orden: int)

  /** `RespuestaEncuesta`: the header of one submitted survey. */
  datatype Respuesta = Respuesta(
    encuestaId: int,
    usuarioAsesorId: int,
    sucursalId: Option<int>,
    numeroSolicitud: Option<String>,
    tipoAtencion: Option<String>,
    clienteNombre: Option<String>,
    clienteTelefono: Option<String>,
    fechaInicio: Timestamp,
    fechaCompletada: Option<Timestamp>,
    estado: String)

  /** `RespuestaDetalle`: one answered option or text of a header. */
  datatype Detalle = Detalle(
    respuestaEncuestaId: int,
    preguntaId: int,
    opcionId: Option<int>,
    textoRespuesta: Option<String>,
    fechaRespuesta: Timestamp)

  datatype Sucursal = Sucursal(
    codigoSucursal: String,
    nombre: String,
    direccion: Option<String>,
    ciudad: Option<String>,
    estado: Option<String>,
    telefono: Option<String>,
    email: Option<String>,
    gerente: Option<String>,
    activa: bool,
    fechaCreacion: Timestamp)

  // ---------------------------------------------------------------------------
  // Defaults of the parameterless constructors
  // ---------------------------------------------------------------------------

  /** `new Usuario { ... }` with the initialiser's fields; `Activo` keeps its default. */
  function NewUsuario(nombre: String, email: String, password: String, tipoUsuario: String, now: Timestamp): Usuario
  {
    Usuario(nombre, email, Some(password), tipoUsuario, now, true)
  }

  /** `new Encuesta { ... }`; `Activa` keeps its default. */
  function NewEncuesta(titulo: String, descripcion: Option<String>, adminId: int, fechaLimite: Option<Timestamp>, now: Timestamp): Encuesta
  {
    Encuesta(titulo, descripcion, adminId, now, fechaLimite, true)
  }

  /** `new Pregunta { EncuestaId, TextoPregunta, TipoPregunta }` with the other fields defaulted. */
  function NewPregunta(encuestaId: int, texto: String, tipo: String): Pregunta
  {
    Pregunta(encuestaId, texto, tipo, false, 1)
  }

  /** `new OpcionRespuesta { PreguntaId, TextoOpcion }` with the other fields defaulted. */
  function NewOpcion(preguntaId: int, texto: String): Opcion
  {
    Opcion(preguntaId, texto, None, 1)
  }

  /** `new RespuestaEncuesta { EncuestaId, UsuarioAsesorId }` with the other fields defaulted. */
  function NewRespuesta(encuestaId: int, asesorId: int, now: Timestamp): Respuesta
  {
    Respuesta(encuestaId, asesorId, None, None, None, None, None, now, None, EstadoIniciada)
  }

  /** `new Sucursal { CodigoSucursal, Nombre }` with the other fields defaulted. */
  function NewSucursal(codigo: String, nombre: String, now: Timestamp): Sucursal
  {
    Sucursal(codigo, nombre, None, None, None, None, None, None, true, now)
  }

  /** `default(DateTime)`, 0001-01-01 00:00:00: the value a `DateTime` property keeps
      when nothing sets it. */
  const DefaultTimestamp: Timestamp := Timestamp(1, 1, 1, 0, 0, 0)

  const EstadosRespuesta: set<String> := {EstadoIniciada, EstadoCompletada, EstadoAbandonada}

  /** The defaults the entity classes declare: active users, surveys and branches; a
      question that is optional and first; an option that is first; a header that is
      started, not completed, and in one of the three states. */
  lemma Defaults(text: String, id: int, now: Timestamp)
    ensures NewUsuario(text, text, text, text, now).activo
    ensures NewEncuesta(text, None, id, None, now).activa
    ensures var p := NewPregunta(id, text, text); !p.obligatoria && p.orden == 1
    ensures NewOpcion(id, text).orden == 1
    ensures var r := NewRespuesta(id, id, now);
              r.estado == EstadoIniciada && r.estado in EstadosRespuesta && r.fechaCompletada.None?
    ensures NewSucursal(text, text, now).activa
    ensures |EstadosRespuesta| == 3
  {
  }

  // ---------------------------------------------------------------------------
  // Data annotations, as model binding checks them on a request
  // ---------------------------------------------------------------------------

  /** `[Required]` on a string: present and not white space only. */
  predicate Required(s: Option<String>)
  {
    !IsNullOrWhiteSpace(s)
  }

  /** `[StringLength(n)]`: an absent value passes. */
  predicate MaxLength(s: Option<String>, n: nat)
  {
    s.None? || |s.value| <= n
  }

  /** `[StringLength(max, MinimumLength = min)]`. */
  predicate LengthBetween(s: Option<String>, min: nat, max: nat)
  {
    s.None? || min <= |s.value| <= max
  }

  /** `[EmailAddress]`, reduced to its structural core: exactly one '@', neither
      first nor last. An absent value passes. */
  predicate EmailAddress(s: Option<String>)
  {
    s.None? ||
    exists k :: 0 < k < |s.value| - 1 && s.value[k] == '@'
                && forall j :: 0 <= j < |s.value| && j != k ==> s.value[j] != '@'
  }

  // ---------------------------------------------------------------------------
  // What the database refuses when a row is saved
  // ---------------------------------------------------------------------------

  // The context turns validation on save off (`ValidateOnSaveEnabled = false`), so
  // none of the annotations above is checked when a row is saved: a blank name, a
  // malformed e-mail or a code that trims to nothing is written as it is. What still
  // refuses a row is the database. Its schema is not part of the source; the model
  // assumes the one Code First derives from the same classes: a `[StringLength(n)]`
  // column holds at most `n` characters and a `[Required]` column is NOT NULL. The
  // entities hold a required string as a plain `String`, so a `null` that would reach
  // such a column is refused by the service before the row is built.

  predicate FitsUsuario(u: Usuario)
  {
    |u.nombre| <= 100 && |u.email| <= 150 && u.password.Some? && |u.tipoUsuario| <= 20
  }

  predicate FitsEncuesta(e: Encuesta)
  {
    |e.titulo| <= 200
  }

  predicate FitsPregunta(p: Pregunta)
  {
    |p.tipoPregunta| <= 20
  }

  predicate FitsOpcion(o: Opcion)
  {
    |o.textoOpcion| <= 500 && MaxLength(o.valor, 100)
  }

  /** `SucursalId` is a nullable property but carries `[Required]`, so its column is
      NOT NULL and a header is only saved with a branch. */
  predicate FitsRespuesta(r: Respuesta)
  {
    r.sucursalId.Some?
    && MaxLength(r.numeroSolicitud, 50) && MaxLength(r.tipoAtencion, 20)
    && MaxLength(r.clienteNombre, 100) && MaxLength(r.clienteTelefono, 20)
    && |r.estado| <= 20
  }

  predicate FitsSucursal(b: Sucursal)
  {
    |b.codigoSucursal| <= 10 && |b.nombre| <= 100
    && MaxLength(b.direccion, 200) && MaxLength(b.ciudad, 50) && MaxLength(b.estado, 50)
    && MaxLength(b.telefono, 20) && MaxLength(b.email, 100) && MaxLength(b.gerente, 100)
  }
}
