/** The request bodies the controllers accept and the data annotations the model binder
    checks on them before any service runs. A C# `null` is `None`; a list-valued
    property is `None` when the body leaves it out. Validation recurses into the
    elements of list-valued properties, as the binder does. */
module Requests {
  import opened Wrappers
  import opened Text
  import Entities

  datatype LoginRequest = LoginRequest(email: Option<String>, password: Option<String>)

  /** `[Required][EmailAddress]` on the e-mail, `[Required]` on the password. */
  predicate ValidLogin(r: LoginRequest)
  {
    Entities.Required(r.email) && Entities.EmailAddress(r.email) && Entities.Required(r.password)
  }

  datatype RegistrarUsuarioRequest = RegistrarUsuarioRequest(
    nombre: Option<String>,
    email: Option<String>,
    password: Option<String>,
    tipoUsuario: Option<String>)

  predicate ValidRegistro(r: RegistrarUsuarioRequest)
  {
    Entities.Required(r.nombre) && Entities.MaxLength(r.nombre, 100)
    && Entities.Required(r.email) && Entities.EmailAddress(r.email) && Entities.MaxLength(r.email, 150)
    && Entities.Required(r.password) && Entities.LengthBetween(r.password, 6, 50)
    && Entities.Required(r.tipoUsuario)
  }

  datatype CrearOpcionRequest = CrearOpcionRequest(textoOpcion: Option<String>, valor: Option<String>, orden: int)

  datatype CrearPreguntaRequest = CrearPreguntaRequest(
    textoPregunta: Option<String>,
    tipoPregunta: Option<String>,
    obligatoria: bool,
    orden: int,
    opciones: Option<seq<CrearOpcionRequest>>)

  datatype CrearEncuestaRequest = CrearEncuestaRequest(
    titulo: Option<String>,
    descripcion: Option<String>,
    fechaLimite: Option<Entities.Timestamp>,
    preguntas: Option<seq<CrearPreguntaRequest>>)

  predicate ValidOpcionRequest(o: CrearOpcionRequest)
  {
    Entities.Required(o.textoOpcion)
  }

  predicate ValidPreguntaRequest(q: CrearPreguntaRequest)
  {
    Entities.Required(q.textoPregunta) && Entities.Required(q.tipoPregunta)
    && (q.opciones.Some? ==> forall j :: 0 <= j < |q.opciones.value| ==> ValidOpcionRequest(q.opciones.value[j]))
  }

  /** A title of at most 200 characters and a question list, every element valid. An
      empty list passes: `[Required]` on a list only rules out `null`. */
  predicate ValidEncuestaRequest(r: CrearEncuestaRequest)
  {
    Entities.Required(r.titulo) && Entities.MaxLength(r.titulo, 200)
    && r.preguntas.Some?
    && forall i :: 0 <= i < |r.preguntas.value| ==> ValidPreguntaRequest(r.preguntas.value[i])
  }

  /** One answered question. The three answer shapes are independent properties, so
      any combination of them, none included, can arrive. */
  datatype RespuestaPreguntaRequest = RespuestaPreguntaRequest(
    preguntaId: int,
    opcionesSeleccionadas: Option<seq<int>>,
    opcionSeleccionada: Option<int>,
    textoRespuesta: Option<String>)

  /** `SucursalId` is a non-nullable `int` in the request, so it is always present. */
  datatype ResponderEncuestaRequest = ResponderEncuestaRequest(
    respuestas: Option<seq<RespuestaPreguntaRequest>>,
    sucursalId: int,
    numeroSolicitud: Option<String>,
    tipoAtencion: Option<String>,
    clienteNombre: Option<String>,
    clienteTelefono: Option<String>)

  predicate ValidResponderRequest(r: ResponderEncuestaRequest)
  {
    r.respuestas.Some?
    && Entities.MaxLength(r.numeroSolicitud, 50) && Entities.MaxLength(r.tipoAtencion, 20)
    && Entities.MaxLength(r.clienteNombre, 100) && Entities.MaxLength(r.clienteTelefono, 20)
  }

  /** The body of both `CrearSucursalRequest` and `ActualizarSucursalRequest`, which
      declare the same properties with the same annotations. */
  datatype SucursalRequest = SucursalRequest(
    codigoSucursal: Option<String>,
    nombre: Option<String>,
    direccion: Option<String>,
    ciudad: Option<String>,
    estado: Option<String>,
    telefono: Option<String>,
    email: Option<String>,
    gerente: Option<String>)

  predicate ValidSucursalRequest(r: SucursalRequest)
  {
    Entities.Required(r.codigoSucursal) && Entities.MaxLength(r.codigoSucursal, 10)
    && Entities.Required(r.nombre) && Entities.MaxLength(r.nombre, 100)
    && Entities.MaxLength(r.direccion, 200) && Entities.MaxLength(r.ciudad, 50) && Entities.MaxLength(r.estado, 50)
    && Entities.MaxLength(r.telefono, 20) && Entities.MaxLength(r.email, 100) && Entities.MaxLength(r.gerente, 100)
  }

  /** `ApiResponse<T>`: the envelope every action answers with. */
  datatype ApiResponse<T> = ApiResponse(success: bool, message: Option<String>, data: Option<T>, errors: seq<String>)

  /** `new ApiResponse<T>()`: the constructor starts the error list empty, so a response
      never carries a `null` list. */
  function NewApiResponse<T>(): (r: ApiResponse<T>)
    ensures r.errors == [] && !r.success
    ensures r.message.None? && r.data.None?
  {
    ApiResponse(false, None, None, [])
  }

  /** A valid registration builds a user row the database accepts, unless its type
      is longer than the type's column, a cap the request does not repeat. */
  lemma RegistroFitsUsuario(r: RegistrarUsuarioRequest, hash: String, now: Entities.Timestamp)
    requires ValidRegistro(r)
    ensures Entities.FitsUsuario(Entities.NewUsuario(r.nombre.value, r.email.value, hash, r.tipoUsuario.value, now))
            <==> Entities.MaxLength(r.tipoUsuario, 20)
  {
  }

  /** The cap on the type is not in the request: a valid registration can still be
      turned away when the user row is saved. */
  lemma RegistroMayExceedTipoCap()
    ensures var r := RegistrarUsuarioRequest(Some("Ana"), Some("a@b"), Some("secreto"), Some("administrador-general"));
            ValidRegistro(r)
            && !Entities.FitsUsuario(Entities.NewUsuario(r.nombre.value, r.email.value, "h", r.tipoUsuario.value,
                                                         Entities.Timestamp(2024, 1, 1, 0, 0, 0)))
  {
    var r := RegistrarUsuarioRequest(Some("Ana"), Some("a@b"), Some("secreto"), Some("administrador-general"));
    assert "a@b"[1] == '@';
    assert |"administrador-general"| == 21;
    assert !IsNullOrWhiteSpace(Some("secreto")) by { assert !IsWhiteSpace("secreto"[0]); }
    assert !IsNullOrWhiteSpace(Some("Ana")) by { assert !IsWhiteSpace("Ana"[0]); }
    assert !IsNullOrWhiteSpace(Some("a@b")) by { assert !IsWhiteSpace("a@b"[0]); }
    assert !IsNullOrWhiteSpace(Some("administrador-general")) by { assert !IsWhiteSpace("administrador-general"[0]); }
  }
}
