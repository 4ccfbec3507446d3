/** ReporteService: read-only reports over the store. A navigation collection is read in
    id order, the order `Entries` gives; `OrderBy` sorts that read by its key, and no
    contract depends on how it orders rows whose keys tie. A required navigation (a header's survey or advisor, a detail's question) is
    read through a total lookup whose fallback the store invariant never reaches. */
module ReportService {
  import opened Wrappers
  import opened Text
  import opened Entities
  import opened Store
  import Sequences
  import SurveyService
  import Requests

  // ---------------------------------------------------------------------------
  // Navigation
  // ---------------------------------------------------------------------------

  /** `r.Encuesta`. */
  function SurveyAt(s: Store, encuestaId: int): Encuesta
  {
    if encuestaId in s.encuestas.rows then s.encuestas.rows[encuestaId]
    else Encuesta([], None, 0, Timestamp(1, 1, 1, 0, 0, 0), None, false)
  }

  /** `r.UsuarioAsesor`. */
  function UserAt(s: Store, usuarioId: int): Usuario
  {
    if usuarioId in s.usuarios.rows then s.usuarios.rows[usuarioId]
    else Usuario([], [], None, [], Timestamp(1, 1, 1, 0, 0, 0), false)
  }

  /** `rd.Pregunta`. */
  function QuestionAt(s: Store, preguntaId: int): Pregunta
  {
    if preguntaId in s.preguntas.rows then s.preguntas.rows[preguntaId] else NewPregunta(0, [], [])
  }

  /** `rd.Opcion`: absent when the row names no option. */
  function OptionAt(s: Store, opcionId: Option<int>): Option<Opcion>
  {
    if opcionId.Some? && opcionId.value in s.opciones.rows then Some(s.opciones.rows[opcionId.value]) else None
  }

  /** `r.Sucursal?.Nombre`. */
  function BranchName(s: Store, sucursalId: Option<int>): Option<String>
  {
    if sucursalId.Some? && sucursalId.value in s.sucursales.rows then Some(s.sucursales.rows[sucursalId.value].nombre)
    else None
  }

  /** Under the store invariant every required navigation lands on a stored row. */
  lemma NavigationResolves(s: Store, hid: int, did: int)
    requires ReferencesResolve(s)
    ensures hid in s.respuestas.rows ==>
              SurveyAt(s, s.respuestas.rows[hid].encuestaId) == s.encuestas.rows[s.respuestas.rows[hid].encuestaId]
              && UserAt(s, s.respuestas.rows[hid].usuarioAsesorId) == s.usuarios.rows[s.respuestas.rows[hid].usuarioAsesorId]
    ensures did in s.detalles.rows ==>
              QuestionAt(s, s.detalles.rows[did].preguntaId) == s.preguntas.rows[s.detalles.rows[did].preguntaId]
              && (s.detalles.rows[did].opcionId.Some? <==> OptionAt(s, s.detalles.rows[did].opcionId).Some?)
  {
    if hid in s.respuestas.rows {
      assert Resolves(SurveyOfHeader(s.respuestas.rows[hid]), s.encuestas.rows.Keys);
      assert Resolves(AdvisorOf(s.respuestas.rows[hid]), s.usuarios.rows.Keys);
    }
    if did in s.detalles.rows {
      assert Resolves(QuestionOfDetail(s.detalles.rows[did]), s.preguntas.rows.Keys);
      assert Resolves(OptionOf(s.detalles.rows[did]), s.opciones.rows.Keys);
    }
  }

  // ---------------------------------------------------------------------------
  // Which headers and rows a report reads
  // ---------------------------------------------------------------------------

  /** `r.EncuestaId == encuestaId && r.Estado == "completada"`. */
  predicate CompletedFor(h: Respuesta, encuestaId: int)
  {
    h.encuestaId == encuestaId && h.estado == EstadoCompletada
  }

  function CompletedOf(encuestaId: int): Respuesta -> bool
  {
    (h: Respuesta) => CompletedFor(h, encuestaId)
  }

  /** `encuesta.RespuestasEncuestas.Where(completada)`. */
  function CompletedHeaders(s: Store, encuestaId: int): seq<Entry<Respuesta>>
  {
    Sequences.Filter(Entries(s.respuestas), RowKeep(CompletedOf(encuestaId)))
  }

  /** The ids of the survey's completed headers. */
  ghost function CompletedIds(s: Store, encuestaId: int): set<int>
  {
    set id | id in s.respuestas.rows && CompletedFor(s.respuestas.rows[id], encuestaId)
  }

  function OfHeader(headerId: int): Detalle -> bool
  {
    (d: Detalle) => d.respuestaEncuestaId == headerId
  }

  /** `r.RespuestasDetalle`. */
  function HeaderDetails(s: Store, headerId: int): seq<Entry<Detalle>>
  {
    Sequences.Filter(Entries(s.detalles), RowKeep(OfHeader(headerId)))
  }

  function DetailGroups(s: Store, hs: seq<Entry<Respuesta>>): (r: seq<seq<Entry<Detalle>>>)
    ensures |r| == |hs|
    ensures forall i :: 0 <= i < |hs| ==> r[i] == HeaderDetails(s, hs[i].id)
  {
    seq(|hs|, i requires 0 <= i < |hs| => HeaderDetails(s, hs[i].id))
  }

  function OfQuestion(preguntaId: int): Detalle -> bool
  {
    (d: Detalle) => d.preguntaId == preguntaId
  }

  /** `Where(completada).SelectMany(r => r.RespuestasDetalle).Where(rd => rd.PreguntaId == id)`. */
  function AnswerRows(s: Store, encuestaId: int, preguntaId: int): seq<Entry<Detalle>>
  {
    Sequences.Filter(Sequences.Flatten(DetailGroups(s, CompletedHeaders(s, encuestaId))), RowKeep(OfQuestion(preguntaId)))
  }

  /** A stored detail row that a question's statistics count: it names the question and
      belongs to a completed header of the survey. */
  predicate Counted(s: Store, encuestaId: int, preguntaId: int, d: Detalle)
  {
    d.preguntaId == preguntaId && d.respuestaEncuestaId in s.respuestas.rows
    && CompletedFor(s.respuestas.rows[d.respuestaEncuestaId], encuestaId)
  }

  ghost function CountedIds(s: Store, encuestaId: int, preguntaId: int): set<int>
  {
    set id | id in s.detalles.rows && Counted(s, encuestaId, preguntaId, s.detalles.rows[id])
  }

  lemma CompletedHeadersListed(s: Store, encuestaId: int)
    ensures forall h :: h in CompletedHeaders(s, encuestaId) <==>
              h.id in s.respuestas.rows && s.respuestas.rows[h.id] == h.row && CompletedFor(h.row, encuestaId)
    ensures |CompletedHeaders(s, encuestaId)| == |CompletedIds(s, encuestaId)|
    ensures Sequences.KeysDistinct(CompletedHeaders(s, encuestaId), EntryId)
  {
    CountKept(s.respuestas, CompletedOf(encuestaId));
    assert CompletedIds(s, encuestaId) == KeptIds(s.respuestas, CompletedOf(encuestaId));
    EntriesKeysDistinct(s.respuestas);
    Sequences.FilterKeysDistinct(Entries(s.respuestas), RowKeep(CompletedOf(encuestaId)), EntryId);
  }

  /** The rows a question's statistics read are exactly the counted rows of the store. */
  lemma AnswerRowsListed(s: Store, encuestaId: int, preguntaId: int)
    ensures forall e :: e in AnswerRows(s, encuestaId, preguntaId) <==>
              e.id in s.detalles.rows && s.detalles.rows[e.id] == e.row && Counted(s, encuestaId, preguntaId, e.row)
  {
    GroupedRowsComplete(s, encuestaId);
    GroupedRowsSound(s, encuestaId);
  }

  /** Every stored detail row of a completed header of the survey is in its header's group. */
  lemma GroupedRowsComplete(s: Store, encuestaId: int)
    ensures forall e: Entry<Detalle> ::
              e.id in s.detalles.rows && s.detalles.rows[e.id] == e.row
              && e.row.respuestaEncuestaId in s.respuestas.rows
              && CompletedFor(s.respuestas.rows[e.row.respuestaEncuestaId], encuestaId)
              ==> e in Sequences.Flatten(DetailGroups(s, CompletedHeaders(s, encuestaId)))
  {
    var hs := CompletedHeaders(s, encuestaId);
    var groups := DetailGroups(s, hs);
    CompletedHeadersListed(s, encuestaId);
    forall e: Entry<Detalle> |
      e.id in s.detalles.rows && s.detalles.rows[e.id] == e.row
      && e.row.respuestaEncuestaId in s.respuestas.rows
      && CompletedFor(s.respuestas.rows[e.row.respuestaEncuestaId], encuestaId)
      ensures e in Sequences.Flatten(groups)
    {
      var hid := e.row.respuestaEncuestaId;
      assert Entry(hid, s.respuestas.rows[hid]) in hs;
      var i :| 0 <= i < |hs| && hs[i] == Entry(hid, s.respuestas.rows[hid]);
      assert e in groups[i];
    }
  }

  /** The groups hold stored detail rows of completed headers of the survey only. */
  lemma GroupedRowsSound(s: Store, encuestaId: int)
    ensures forall e: Entry<Detalle> :: e in Sequences.Flatten(DetailGroups(s, CompletedHeaders(s, encuestaId))) ==>
              e.id in s.detalles.rows && s.detalles.rows[e.id] == e.row
              && e.row.respuestaEncuestaId in s.respuestas.rows
              && CompletedFor(s.respuestas.rows[e.row.respuestaEncuestaId], encuestaId)
  {
    var hs := CompletedHeaders(s, encuestaId);
    var groups := DetailGroups(s, hs);
    CompletedHeadersListed(s, encuestaId);
    forall e: Entry<Detalle> | e in Sequences.Flatten(groups)
      ensures e.id in s.detalles.rows && s.detalles.rows[e.id] == e.row
              && e.row.respuestaEncuestaId in s.respuestas.rows
              && CompletedFor(s.respuestas.rows[e.row.respuestaEncuestaId], encuestaId)
    {
      var i :| 0 <= i < |groups| && e in groups[i];
      assert hs[i] in hs;
    }
  }

  /** Detail rows under distinct headers are distinct rows. */
  lemma GroupsDisjoint(s: Store, encuestaId: int)
    ensures var groups := DetailGroups(s, CompletedHeaders(s, encuestaId));
            forall i, j, x, y :: 0 <= i < j < |groups| && x in groups[i] && y in groups[j] ==> EntryId(x) != EntryId(y)
  {
    var hs := CompletedHeaders(s, encuestaId);
    var groups := DetailGroups(s, hs);
    CompletedHeadersListed(s, encuestaId);
    forall i, j, x: Entry<Detalle>, y: Entry<Detalle> | 0 <= i < j < |groups| && x in groups[i] && y in groups[j]
      ensures EntryId(x) != EntryId(y)
    {
      assert x.row.respuestaEncuestaId == hs[i].id && y.row.respuestaEncuestaId == hs[j].id;
      assert hs[i].id != hs[j].id;
    }
  }

  /** A question's answer rows list every counted row once. */
  lemma AnswerRowsCount(s: Store, encuestaId: int, preguntaId: int)
    ensures |AnswerRows(s, encuestaId, preguntaId)| == |CountedIds(s, encuestaId, preguntaId)|
  {
    var groups := DetailGroups(s, CompletedHeaders(s, encuestaId));
    var rows := AnswerRows(s, encuestaId, preguntaId);
    forall i | 0 <= i < |groups| ensures Sequences.KeysDistinct(groups[i], EntryId) {
      EntriesKeysDistinct(s.detalles);
      Sequences.FilterKeysDistinct(Entries(s.detalles), RowKeep(OfHeader(CompletedHeaders(s, encuestaId)[i].id)), EntryId);
    }
    GroupsDisjoint(s, encuestaId);
    Sequences.FlattenKeysDistinct(groups, EntryId);
    Sequences.FilterKeysDistinct(Sequences.Flatten(groups), RowKeep(OfQuestion(preguntaId)), EntryId);
    Sequences.KeysDistinctCard(rows, EntryId);
    AnswerRowsListed(s, encuestaId, preguntaId);
    var ids := Sequences.KeySet(rows, EntryId);
    forall id | id in CountedIds(s, encuestaId, preguntaId) ensures id in ids {
      assert EntryId(Entry(id, s.detalles.rows[id])) == id;
    }
    assert ids == CountedIds(s, encuestaId, preguntaId);
  }

  // ---------------------------------------------------------------------------
  // ObtenerEstadisticasEncuesta
  // ---------------------------------------------------------------------------

  datatype OpcionStats = OpcionStats(opcionId: int, textoOpcion: String, valor: Option<String>, cantidad: nat)

  /** A free-text question lists its answers; any other question counts its options. */
  datatype PreguntaStats =
    | TextoLibreStats(preguntaId: int, textoPregunta: String, tipoPregunta: String, totalRespuestas: nat,
                      respuestas: seq<String>)
    | OpcionesStats(preguntaId: int, textoPregunta: String, tipoPregunta: String, totalRespuestas: nat,
                    opciones: seq<OpcionStats>)

  datatype EncuestaStats = EncuestaStats(
    encuestaId: int,
    titulo: String,
    totalRespuestas: nat,
    fechaCreacion: Timestamp,
    preguntas: seq<PreguntaStats>)

  /** `respuestas.Select(r => r.TextoRespuesta).Where(t => !string.IsNullOrEmpty(t))`. */
  function TextAnswers(rows: seq<Entry<Detalle>>): seq<String>
  {
    if rows == [] then []
    else
      var t := rows[0].row.textoRespuesta;
      (if IsNullOrEmpty(t) then [] else [t.value]) + TextAnswers(rows[1..])
  }

  /** The listed texts are exactly the non-empty texts of the rows. */
  lemma {:induction false} TextAnswersListed(rows: seq<Entry<Detalle>>)
    ensures |TextAnswers(rows)| <= |rows|
    ensures forall t :: t in TextAnswers(rows) <==> t != [] && exists e :: e in rows && e.row.textoRespuesta == Some(t)
  {
    if rows != [] {
      TextAnswersListed(rows[1..]);
      forall t ensures t in TextAnswers(rows) <==> t != [] && exists e :: e in rows && e.row.textoRespuesta == Some(t) {
        if t != [] && (exists e :: e in rows && e.row.textoRespuesta == Some(t)) {
          var e :| e in rows && e.row.textoRespuesta == Some(t);
          if e != rows[0] {
            var k :| 0 <= k < |rows| && rows[k] == e;
            assert rows[1..][k - 1] == e;
          }
        }
        if t in TextAnswers(rows[1..]) {
          var e :| e in rows[1..] && e.row.textoRespuesta == Some(t);
          assert e in rows;
        }
      }
    }
  }

  /** `r.OpcionId` is one of `ids`. */
  predicate SelectsAny(d: Detalle, ids: set<int>)
  {
    d.opcionId.Some? && d.opcionId.value in ids
  }

  function OptionIn(ids: set<int>): Detalle -> bool
  {
    (d: Detalle) => SelectsAny(d, ids)
  }

  /** `respuestas.Count(r => r.OpcionId == opcion.Id)`. */
  function Cantidad(rows: seq<Entry<Detalle>>, opcionId: int): nat
  {
    Sequences.Count(rows, RowKeep(OptionIn({opcionId})))
  }

  function OpcionStatsOf(rows: seq<Entry<Detalle>>): (int, Opcion) -> OpcionStats
  {
    (id: int, o: Opcion) => OpcionStats(id, o.textoOpcion, o.valor, Cantidad(rows, id))
  }

  function OfQuestionOption(preguntaId: int): Opcion -> bool
  {
    (o: Opcion) => o.preguntaId == preguntaId
  }

  /** `pregunta.Opciones`. */
  function QuestionOptions(s: Store, preguntaId: int): seq<Entry<Opcion>>
  {
    Sequences.Filter(Entries(s.opciones), RowKeep(OfQuestionOption(preguntaId)))
  }

  /** The statistics of one question of the survey. */
  function QuestionStats(s: Store, encuestaId: int, id: int, p: Pregunta): PreguntaStats
  {
    var rows := AnswerRows(s, encuestaId, id);
    if p.tipoPregunta == TipoTextoLibre then
      TextoLibreStats(id, p.textoPregunta, p.tipoPregunta, |rows|, TextAnswers(rows))
    else
      OpcionesStats(id, p.textoPregunta, p.tipoPregunta, |rows|, Project(QuestionOptions(s, id), OpcionStatsOf(rows)))
  }

  function QuestionStatsOf(s: Store, encuestaId: int): (int, Pregunta) -> PreguntaStats
  {
    (id: int, p: Pregunta) => QuestionStats(s, encuestaId, id, p)
  }

  function OfSurvey(encuestaId: int): Pregunta -> bool
  {
    (p: Pregunta) => p.encuestaId == encuestaId
  }

  /** `encuesta.Preguntas`. */
  function SurveyQuestions(s: Store, encuestaId: int): seq<Entry<Pregunta>>
  {
    Sequences.Filter(Entries(s.preguntas), RowKeep(OfSurvey(encuestaId)))
  }

  /** `ObtenerEstadisticasEncuesta`: nothing for an unknown id; otherwise the survey's
      completed-response count and one entry per question. Whether the survey is active
      plays no part. */
  function ObtenerEstadisticasEncuesta(s: Store, encuestaId: int): (r: Option<EncuestaStats>)
    ensures r.Some? <==> encuestaId in s.encuestas.rows
    ensures r.Some? ==> r.value.encuestaId == encuestaId
                        && r.value.titulo == s.encuestas.rows[encuestaId].titulo
                        && r.value.fechaCreacion == s.encuestas.rows[encuestaId].fechaCreacion
  {
    if encuestaId !in s.encuestas.rows then None
    else
      var e := s.encuestas.rows[encuestaId];
      Some(EncuestaStats(encuestaId, e.titulo, |CompletedHeaders(s, encuestaId)|, e.fechaCreacion,
                         Project(SurveyQuestions(s, encuestaId), QuestionStatsOf(s, encuestaId))))
  }

  /** The survey's total is the number of its completed headers, whatever their advisor. */
  lemma EstadisticasTotal(s: Store, encuestaId: int)
    requires encuestaId in s.encuestas.rows
    ensures ObtenerEstadisticasEncuesta(s, encuestaId).value.totalRespuestas == |CompletedIds(s, encuestaId)|
  {
    CompletedHeadersListed(s, encuestaId);
  }

  /** The question entries are the survey's questions, each turned into its statistics. */
  lemma StatsOfQuestions(s: Store, encuestaId: int)
    requires encuestaId in s.encuestas.rows
    ensures var qs := ObtenerEstadisticasEncuesta(s, encuestaId).value.preguntas;
            var ps := SurveyQuestions(s, encuestaId);
            && |qs| == |ps|
            && (forall i :: 0 <= i < |qs| ==> qs[i] == QuestionStats(s, encuestaId, ps[i].id, ps[i].row))
            && (forall i :: 0 <= i < |qs| ==> qs[i].preguntaId == ps[i].id)
  {
    var ps := SurveyQuestions(s, encuestaId);
    var qs := Project(ps, QuestionStatsOf(s, encuestaId));
    assert forall i :: 0 <= i < |qs| ==> qs[i] == QuestionStatsOf(s, encuestaId)(ps[i].id, ps[i].row);
  }

  /** One entry per question of the survey. */
  lemma EstadisticasQuestions(s: Store, encuestaId: int)
    requires encuestaId in s.encuestas.rows
    ensures var qs := ObtenerEstadisticasEncuesta(s, encuestaId).value.preguntas;
            && (forall i :: 0 <= i < |qs| ==>
                  qs[i].preguntaId in s.preguntas.rows && s.preguntas.rows[qs[i].preguntaId].encuestaId == encuestaId
                  && qs[i] == QuestionStats(s, encuestaId, qs[i].preguntaId, s.preguntas.rows[qs[i].preguntaId]))
            && (forall id :: id in s.preguntas.rows && s.preguntas.rows[id].encuestaId == encuestaId ==>
                  exists i :: 0 <= i < |qs| && qs[i].preguntaId == id)
  {
    StatsOfQuestions(s, encuestaId);
    StatsEntriesAreQuestions(s, encuestaId);
    StatsCoverQuestions(s, encuestaId);
  }

  lemma StatsEntriesAreQuestions(s: Store, encuestaId: int)
    requires encuestaId in s.encuestas.rows
    requires var qs := ObtenerEstadisticasEncuesta(s, encuestaId).value.preguntas;
             var ps := SurveyQuestions(s, encuestaId);
             |qs| == |ps| && forall i :: 0 <= i < |qs| ==> qs[i] == QuestionStats(s, encuestaId, ps[i].id, ps[i].row)
    ensures var qs := ObtenerEstadisticasEncuesta(s, encuestaId).value.preguntas;
            forall i :: 0 <= i < |qs| ==>
              qs[i].preguntaId in s.preguntas.rows && s.preguntas.rows[qs[i].preguntaId].encuestaId == encuestaId
              && qs[i] == QuestionStats(s, encuestaId, qs[i].preguntaId, s.preguntas.rows[qs[i].preguntaId])
  {
    var ps := SurveyQuestions(s, encuestaId);
    var qs := ObtenerEstadisticasEncuesta(s, encuestaId).value.preguntas;
    forall i | 0 <= i < |qs|
      ensures qs[i].preguntaId in s.preguntas.rows && s.preguntas.rows[qs[i].preguntaId].encuestaId == encuestaId
      ensures qs[i] == QuestionStats(s, encuestaId, qs[i].preguntaId, s.preguntas.rows[qs[i].preguntaId])
    {
      assert ps[i] in ps;
    }
  }

  lemma StatsCoverQuestions(s: Store, encuestaId: int)
    requires encuestaId in s.encuestas.rows
    requires var qs := ObtenerEstadisticasEncuesta(s, encuestaId).value.preguntas;
             var ps := SurveyQuestions(s, encuestaId);
             |qs| == |ps| && forall i :: 0 <= i < |qs| ==> qs[i] == QuestionStats(s, encuestaId, ps[i].id, ps[i].row)
    ensures var qs := ObtenerEstadisticasEncuesta(s, encuestaId).value.preguntas;
            forall id :: id in s.preguntas.rows && s.preguntas.rows[id].encuestaId == encuestaId ==>
              exists i :: 0 <= i < |qs| && qs[i].preguntaId == id
  {
    var ps := SurveyQuestions(s, encuestaId);
    var qs := ObtenerEstadisticasEncuesta(s, encuestaId).value.preguntas;
    forall id | id in s.preguntas.rows && s.preguntas.rows[id].encuestaId == encuestaId
      ensures exists i :: 0 <= i < |qs| && qs[i].preguntaId == id
    {
      assert Entry(id, s.preguntas.rows[id]) in ps;
      var i :| 0 <= i < |ps| && ps[i] == Entry(id, s.preguntas.rows[id]);
      assert qs[i].preguntaId == id;
    }
  }

  /** The questions come in id order, each once. */
  lemma EstadisticasQuestionOrder(s: Store, encuestaId: int)
    requires encuestaId in s.encuestas.rows
    ensures var qs := ObtenerEstadisticasEncuesta(s, encuestaId).value.preguntas;
            forall i, j :: 0 <= i < j < |qs| ==> qs[i].preguntaId < qs[j].preguntaId
  {
    var ps := SurveyQuestions(s, encuestaId);
    var qs := ObtenerEstadisticasEncuesta(s, encuestaId).value.preguntas;
    EntriesIncreasing(s.preguntas);
    Sequences.FilterIncreasing(Entries(s.preguntas), RowKeep(OfSurvey(encuestaId)), EntryId);
    StatsOfQuestions(s, encuestaId);
    assert Sequences.IncreasingBy(ps, EntryId);
    forall i, j | 0 <= i < j < |qs| ensures qs[i].preguntaId < qs[j].preguntaId {
      assert qs[i].preguntaId == ps[i].id && qs[j].preguntaId == ps[j].id;
      assert EntryId(ps[i]) < EntryId(ps[j]);
    }
  }

  /** A question's total counts every stored detail row of a completed response of the
      survey that names the question: one per selected option of a multi-select answer. */
  lemma QuestionTotal(s: Store, encuestaId: int, id: int, p: Pregunta)
    ensures QuestionStats(s, encuestaId, id, p).totalRespuestas == |CountedIds(s, encuestaId, id)|
    ensures QuestionStats(s, encuestaId, id, p).TextoLibreStats? <==> p.tipoPregunta == TipoTextoLibre
  {
    AnswerRowsCount(s, encuestaId, id);
  }

  /** A free-text question lists exactly the non-empty texts among its counted rows. */
  lemma FreeTextListed(s: Store, encuestaId: int, id: int, p: Pregunta)
    requires p.tipoPregunta == TipoTextoLibre
    ensures var q := QuestionStats(s, encuestaId, id, p);
            forall t :: t in q.respuestas <==>
              t != [] && exists did :: did in s.detalles.rows && Counted(s, encuestaId, id, s.detalles.rows[did])
                                       && s.detalles.rows[did].textoRespuesta == Some(t)
  {
    var rows := AnswerRows(s, encuestaId, id);
    TextAnswersListed(rows);
    AnswerRowsListed(s, encuestaId, id);
    forall t | t != [] && exists did :: did in s.detalles.rows && Counted(s, encuestaId, id, s.detalles.rows[did])
                                        && s.detalles.rows[did].textoRespuesta == Some(t)
      ensures t in TextAnswers(rows)
    {
      var did :| did in s.detalles.rows && Counted(s, encuestaId, id, s.detalles.rows[did])
                 && s.detalles.rows[did].textoRespuesta == Some(t);
      assert Entry(did, s.detalles.rows[did]) in rows;
    }
  }

  /** The options' counts of a choice question: one entry per option of the question, each
      counting the rows that select it, and together never more than the question's total. */
  lemma OptionCountsBounded(s: Store, encuestaId: int, id: int, p: Pregunta)
    requires p.tipoPregunta != TipoTextoLibre
    ensures var q := QuestionStats(s, encuestaId, id, p);
            && (forall k :: 0 <= k < |q.opciones| ==>
                  q.opciones[k].opcionId in s.opciones.rows
                  && s.opciones.rows[q.opciones[k].opcionId].preguntaId == id
                  && q.opciones[k].cantidad == Cantidad(AnswerRows(s, encuestaId, id), q.opciones[k].opcionId))
            && SumCantidad(q.opciones) <= q.totalRespuestas
  {
    var rows := AnswerRows(s, encuestaId, id);
    var os := QuestionOptions(s, id);
    var q := QuestionStats(s, encuestaId, id, p);
    forall k | 0 <= k < |q.opciones|
      ensures q.opciones[k].opcionId in s.opciones.rows && s.opciones.rows[q.opciones[k].opcionId].preguntaId == id
    {
      assert os[k] in os;
    }
    EntriesKeysDistinct(s.opciones);
    Sequences.FilterKeysDistinct(Entries(s.opciones), RowKeep(OfQuestionOption(id)), EntryId);
    SumIsCount(rows, os);
  }

  function SumCantidad(xs: seq<OpcionStats>): nat
  {
    if xs == [] then 0 else xs[0].cantidad + SumCantidad(xs[1..])
  }

  /** Over options with distinct ids, the counts add up to the number of rows selecting
      any of them, which is at most the number of rows. */
  lemma {:induction false} SumIsCount(rows: seq<Entry<Detalle>>, os: seq<Entry<Opcion>>)
    requires Sequences.KeysDistinct(os, EntryId)
    ensures SumCantidad(Project(os, OpcionStatsOf(rows))) == Sequences.Count(rows, RowKeep(OptionIn(Sequences.KeySet(os, EntryId))))
    ensures SumCantidad(Project(os, OpcionStatsOf(rows))) <= |rows|
  {
    var xs := Project(os, OpcionStatsOf(rows));
    if os == [] {
      assert Sequences.KeySet(os, EntryId) == {};
      CountNone(rows);
    } else {
      var rest := os[1..];
      assert Sequences.KeysDistinct(rest, EntryId) by {
        forall i, j | 0 <= i < j < |rest| ensures EntryId(rest[i]) != EntryId(rest[j]) {
          assert rest[i] == os[i + 1] && rest[j] == os[j + 1];
        }
      }
      SumIsCount(rows, rest);
      assert xs[1..] == Project(rest, OpcionStatsOf(rows));
      var tail := Sequences.KeySet(rest, EntryId);
      assert Sequences.KeySet(os, EntryId) == {os[0].id} + tail by {
        assert os == [os[0]] + rest;
      }
      assert os[0].id !in tail by {
        forall y | y in rest ensures EntryId(y) != os[0].id {
          var k :| 0 <= k < |rest| && rest[k] == y;
          assert os[k + 1] == y;
        }
      }
      CountUnion(rows, {os[0].id}, tail);
      assert xs[0] == OpcionStats(os[0].id, os[0].row.textoOpcion, os[0].row.valor, Cantidad(rows, os[0].id));
      assert SumCantidad(xs) == xs[0].cantidad + SumCantidad(xs[1..]);
    }
  }

  lemma {:induction false} CountNone(rows: seq<Entry<Detalle>>)
    ensures Sequences.Count(rows, RowKeep(OptionIn({}))) == 0
  {
    if rows != [] {
      CountNone(rows[1..]);
      var p := RowKeep(OptionIn({}));
      assert p(rows[0]) == OptionIn({})(rows[0].row) == SelectsAny(rows[0].row, {});
      assert Sequences.Filter(rows, p) == Sequences.Filter(rows[1..], p);
    }
  }

  /** Rows selecting an option in one of two disjoint sets are counted by one set or the
      other, and never more than the rows there are. */
  lemma {:induction false} CountUnion(rows: seq<Entry<Detalle>>, a: set<int>, b: set<int>)
    requires a !! b
    ensures Sequences.Count(rows, RowKeep(OptionIn(a + b)))
            == Sequences.Count(rows, RowKeep(OptionIn(a))) + Sequences.Count(rows, RowKeep(OptionIn(b)))
    ensures Sequences.Count(rows, RowKeep(OptionIn(a + b))) <= |rows|
  {
    if rows != [] {
      CountUnion(rows[1..], a, b);
      var x := rows[0];
      var pa, pb, pab := RowKeep(OptionIn(a)), RowKeep(OptionIn(b)), RowKeep(OptionIn(a + b));
      assert pa(x) == SelectsAny(x.row, a) && pb(x) == SelectsAny(x.row, b) && pab(x) == SelectsAny(x.row, a + b);
      assert Sequences.Filter(rows, pab) == (if pab(x) then [x] else []) + Sequences.Filter(rows[1..], pab);
      assert Sequences.Filter(rows, pa) == (if pa(x) then [x] else []) + Sequences.Filter(rows[1..], pa);
      assert Sequences.Filter(rows, pb) == (if pb(x) then [x] else []) + Sequences.Filter(rows[1..], pb);
    }
  }

  /** Recording a submission adds exactly one to the survey's total. */
  lemma SubmissionCounted(s: Store, encuestaId: int, asesorId: int, req: Requests.ResponderEncuestaRequest,
                          now: Timestamp, sqlFails: bool, s': Store)
    requires SurveyService.ResponderEncuesta(s, encuestaId, asesorId, req, now, sqlFails) == Success(s')
    ensures |CompletedIds(s', encuestaId)| == |CompletedIds(s, encuestaId)| + 1
  {
    var next := s.respuestas.next;
    assert CompletedIds(s', encuestaId) == CompletedIds(s, encuestaId) + {next};
    assert next !in CompletedIds(s, encuestaId);
  }

  // ---------------------------------------------------------------------------
  // Orderings
  // ---------------------------------------------------------------------------

  /** `OrderByDescending(FechaCompletada)`: later completions first; a header with no
      completion date compares below every date and goes last. */
  predicate NewestFirst(a: Respuesta, b: Respuesta)
  {
    match (a.fechaCompletada, b.fechaCompletada)
    case (Some(x), Some(y)) => NotAfter(y, x)
    case (Some(_), None) => true
    case (None, Some(_)) => false
    case (None, None) => true
  }

  lemma NewestFirstTotal()
    ensures Sequences.TotalPreorder(NewestFirst)
  {
  }

  /** `rd.Pregunta.Orden`. */
  function QuestionOrdenOf(s: Store): Detalle -> int
  {
    (d: Detalle) => QuestionAt(s, d.preguntaId).orden
  }

  // ---------------------------------------------------------------------------
  // Detail views
  // ---------------------------------------------------------------------------

  /** One answered row with its question and option. The listing of a survey's responses
      shows the same fields without the row and option ids. */
  datatype DetalleView = DetalleView(
    respuestaDetalleId: int,
    preguntaId: int,
    textoPregunta: String,
    tipoPregunta: String,
    ordenPregunta: int,
    opcionId: Option<int>,
    opcionSeleccionada: Option<String>,
    valorOpcion: Option<String>,
    textoRespuesta: Option<String>,
    fechaRespuesta: Timestamp)

  function DetalleViewOf(s: Store): (int, Detalle) -> DetalleView
  {
    (id: int, d: Detalle) =>
      var q := QuestionAt(s, d.preguntaId);
      var o := OptionAt(s, d.opcionId);
      DetalleView(id, d.preguntaId, q.textoPregunta, q.tipoPregunta, q.orden, d.opcionId,
                  if o.Some? then Some(o.value.textoOpcion) else None,
                  if o.Some? then o.value.valor else None,
                  d.textoRespuesta, d.fechaRespuesta)
  }

  /** `r.RespuestasDetalle.Select(...).OrderBy(OrdenPregunta)`. */
  function DetailViews(s: Store, headerId: int): seq<DetalleView>
  {
    Project(SortedRows(s.detalles, OfHeader(headerId), QuestionOrdenOf(s)), DetalleViewOf(s))
  }

  /** The ids of a header's detail rows. */
  ghost function DetailIds(s: Store, headerId: int): set<int>
  {
    set id | id in s.detalles.rows && s.detalles.rows[id].respuestaEncuestaId == headerId
  }

  /** A header's detail views: one per stored row of the header, in question order. */
  lemma DetailViewsListed(s: Store, headerId: int)
    ensures var r := DetailViews(s, headerId);
            && |r| == |DetailIds(s, headerId)|
            && (forall i, j :: 0 <= i < j < |r| ==> r[i].ordenPregunta <= r[j].ordenPregunta)
            && (forall id :: id in s.detalles.rows && s.detalles.rows[id].respuestaEncuestaId == headerId ==>
                  DetalleViewOf(s)(id, s.detalles.rows[id]) in r)
            && (forall v :: v in r ==>
                  (v.respuestaDetalleId in s.detalles.rows
                   && s.detalles.rows[v.respuestaDetalleId].respuestaEncuestaId == headerId
                   && v == DetalleViewOf(s)(v.respuestaDetalleId, s.detalles.rows[v.respuestaDetalleId])))
  {
    var rows := SortedRows(s.detalles, OfHeader(headerId), QuestionOrdenOf(s));
    ProjectMembers(rows, DetalleViewOf(s));
    assert DetailIds(s, headerId) == KeptIds(s.detalles, OfHeader(headerId));
    forall id | id in s.detalles.rows && s.detalles.rows[id].respuestaEncuestaId == headerId
      ensures DetalleViewOf(s)(id, s.detalles.rows[id]) in Project(rows, DetalleViewOf(s))
    {
      assert Entry(id, s.detalles.rows[id]) in rows;
    }
  }

  // ---------------------------------------------------------------------------
  // ObtenerTodasLasRespuestasEncuesta
  // ---------------------------------------------------------------------------

  datatype CompletadaView = CompletadaView(
    respuestaId: int,
    usuarioId: int,
    nombreUsuario: String,
    emailUsuario: String,
    fechaInicio: Timestamp,
    fechaRespuesta: Option<Timestamp>,
    estado: String,
    respuestas: seq<DetalleView>)

  function CompletadaViewOf(s: Store): (int, Respuesta) -> CompletadaView
  {
    (id: int, h: Respuesta) =>
      var u := UserAt(s, h.usuarioAsesorId);
      CompletadaView(id, h.usuarioAsesorId, u.nombre, u.email, h.fechaInicio, h.fechaCompletada, h.estado,
                     DetailViews(s, id))
  }

  function CompletedNewestFirst(s: Store, encuestaId: int): seq<Entry<Respuesta>>
  {
    NewestFirstTotal();
    SortedRowsBy(s.respuestas, CompletedOf(encuestaId), NewestFirst)
  }

  /** `ObtenerTodasLasRespuestasEncuesta`. */
  function ObtenerTodasLasRespuestasEncuesta(s: Store, encuestaId: int): (r: seq<CompletadaView>)
    ensures forall i :: 0 <= i < |r| ==> r[i].respuestaId in CompletedIds(s, encuestaId)
  {
    Project(CompletedNewestFirst(s, encuestaId), CompletadaViewOf(s))
  }

  /** Every completed header of the survey, once, newest first, the undated last. */
  lemma TodasListed(s: Store, encuestaId: int)
    ensures var r := ObtenerTodasLasRespuestasEncuesta(s, encuestaId);
            && |r| == |CompletedIds(s, encuestaId)|
            && (forall id :: id in CompletedIds(s, encuestaId) ==> CompletadaViewOf(s)(id, s.respuestas.rows[id]) in r)
            && (forall v :: v in r ==>
                  (v.respuestaId in CompletedIds(s, encuestaId)
                   && v == CompletadaViewOf(s)(v.respuestaId, s.respuestas.rows[v.respuestaId])))
  {
    var rows := CompletedNewestFirst(s, encuestaId);
    ProjectMembers(rows, CompletadaViewOf(s));
    assert CompletedIds(s, encuestaId) == KeptIds(s.respuestas, CompletedOf(encuestaId));
    forall id | id in CompletedIds(s, encuestaId)
      ensures CompletadaViewOf(s)(id, s.respuestas.rows[id]) in Project(rows, CompletadaViewOf(s))
    {
      assert Entry(id, s.respuestas.rows[id]) in rows;
    }
  }

  /** Newest first; the undated, if any, after every dated one. */
  lemma TodasNewestFirst(s: Store, encuestaId: int)
    ensures var r := ObtenerTodasLasRespuestasEncuesta(s, encuestaId);
            forall i, j :: 0 <= i < j < |r| && r[j].fechaRespuesta.Some? ==>
              r[i].fechaRespuesta.Some? && NotAfter(r[j].fechaRespuesta.value, r[i].fechaRespuesta.value)
  {
    var rows := CompletedNewestFirst(s, encuestaId);
    var r := ObtenerTodasLasRespuestasEncuesta(s, encuestaId);
    forall i, j | 0 <= i < j < |r| && r[j].fechaRespuesta.Some?
      ensures r[i].fechaRespuesta.Some? && NotAfter(r[j].fechaRespuesta.value, r[i].fechaRespuesta.value)
    {
      assert NewestFirst(rows[i].row, rows[j].row);
    }
  }

  /** The unique index on (survey, advisor) lets each advisor appear once in the listing. */
  lemma TodasOnePerAdvisor(s: Store, encuestaId: int)
    requires IndicesHold(s)
    ensures var r := ObtenerTodasLasRespuestasEncuesta(s, encuestaId);
            forall i, j :: 0 <= i < j < |r| ==> r[i].usuarioId != r[j].usuarioId
  {
    var rows := CompletedNewestFirst(s, encuestaId);
    var r := ObtenerTodasLasRespuestasEncuesta(s, encuestaId);
    forall i, j | 0 <= i < j < |r| ensures r[i].usuarioId != r[j].usuarioId {
      assert rows[i] in rows && rows[j] in rows;
      assert EntryId(rows[i]) != EntryId(rows[j]);
      assert ResponderOf(s.respuestas.rows[rows[i].id]) != ResponderOf(s.respuestas.rows[rows[j].id]);
    }
  }

  // ---------------------------------------------------------------------------
  // ObtenerRespuestasUsuario
  // ---------------------------------------------------------------------------

  datatype RespuestaUsuarioView = RespuestaUsuarioView(
    respuestaEncuestaId: int,
    encuestaId: int,
    tituloEncuesta: String,
    descripcionEncuesta: Option<String>,
    fechaInicio: Timestamp,
    fechaRespuesta: Option<Timestamp>,
    estado: String,
    nombreUsuario: String,
    emailUsuario: String,
    respuestas: seq<DetalleView>)

  function RespuestaUsuarioViewOf(s: Store): (int, Respuesta) -> RespuestaUsuarioView
  {
    (id: int, h: Respuesta) =>
      var e := SurveyAt(s, h.encuestaId);
      var u := UserAt(s, h.usuarioAsesorId);
      RespuestaUsuarioView(id, h.encuestaId, e.titulo, e.descripcion, h.fechaInicio, h.fechaCompletada, h.estado,
                           u.nombre, u.email, DetailViews(s, id))
  }

  function ByAdvisor(usuarioId: int): Respuesta -> bool
  {
    (h: Respuesta) => h.usuarioAsesorId == usuarioId
  }

  /** `ObtenerRespuestasUsuario`: no test on the state. */
  function ObtenerRespuestasUsuario(s: Store, usuarioId: int): (r: seq<RespuestaUsuarioView>)
    ensures forall i :: 0 <= i < |r| ==>
              r[i].respuestaEncuestaId in s.respuestas.rows
              && s.respuestas.rows[r[i].respuestaEncuestaId].usuarioAsesorId == usuarioId
  {
    Project(Sequences.Filter(Entries(s.respuestas), RowKeep(ByAdvisor(usuarioId))), RespuestaUsuarioViewOf(s))
  }

  /** The ids of the advisor's headers. */
  ghost function AdvisorIds(s: Store, usuarioId: int): set<int>
  {
    set id | id in s.respuestas.rows && s.respuestas.rows[id].usuarioAsesorId == usuarioId
  }

  /** Every header of the advisor, whatever its state, once and in id order, each with
      its rows in question order. */
  lemma RespuestasUsuarioListed(s: Store, usuarioId: int)
    ensures var r := ObtenerRespuestasUsuario(s, usuarioId);
            && |r| == |AdvisorIds(s, usuarioId)|
            && (forall id :: id in s.respuestas.rows && s.respuestas.rows[id].usuarioAsesorId == usuarioId ==>
                  RespuestaUsuarioViewOf(s)(id, s.respuestas.rows[id]) in r)
            && (forall v :: v in r ==>
                  (v.respuestaEncuestaId in s.respuestas.rows
                   && s.respuestas.rows[v.respuestaEncuestaId].usuarioAsesorId == usuarioId
                   && v == RespuestaUsuarioViewOf(s)(v.respuestaEncuestaId, s.respuestas.rows[v.respuestaEncuestaId])))
            && (forall i, j :: 0 <= i < j < |r| ==> r[i].respuestaEncuestaId < r[j].respuestaEncuestaId)
  {
    var rows := Sequences.Filter(Entries(s.respuestas), RowKeep(ByAdvisor(usuarioId)));
    FilteredRead(s.respuestas, ByAdvisor(usuarioId));
    EntriesIncreasing(s.respuestas);
    Sequences.FilterIncreasing(Entries(s.respuestas), RowKeep(ByAdvisor(usuarioId)), EntryId);
    ProjectMembers(rows, RespuestaUsuarioViewOf(s));
    assert AdvisorIds(s, usuarioId) == KeptIds(s.respuestas, ByAdvisor(usuarioId));
    forall id | id in s.respuestas.rows && s.respuestas.rows[id].usuarioAsesorId == usuarioId
      ensures RespuestaUsuarioViewOf(s)(id, s.respuestas.rows[id]) in Project(rows, RespuestaUsuarioViewOf(s))
    {
      assert Entry(id, s.respuestas.rows[id]) in rows;
    }
  }

  /** The unique index on (survey, advisor): an advisor's listing names each survey once. */
  lemma RespuestasUsuarioOnePerSurvey(s: Store, usuarioId: int)
    requires IndicesHold(s)
    ensures var r := ObtenerRespuestasUsuario(s, usuarioId);
            forall i, j :: 0 <= i < j < |r| ==> r[i].encuestaId != r[j].encuestaId
  {
    var rows := Sequences.Filter(Entries(s.respuestas), RowKeep(ByAdvisor(usuarioId)));
    var r := ObtenerRespuestasUsuario(s, usuarioId);
    FilteredRead(s.respuestas, ByAdvisor(usuarioId));
    forall i, j | 0 <= i < j < |r| ensures r[i].encuestaId != r[j].encuestaId {
      assert rows[i] in rows && rows[j] in rows;
      assert EntryId(rows[i]) != EntryId(rows[j]);
      assert ResponderOf(s.respuestas.rows[rows[i].id]) != ResponderOf(s.respuestas.rows[rows[j].id]);
    }
  }

  /** A header the advisor has not completed is listed for the advisor, but not among the
      survey's completed responses. */
  lemma UnfinishedListedOnlyForAdvisor(s: Store, id: int)
    requires id in s.respuestas.rows && s.respuestas.rows[id].estado != EstadoCompletada
    ensures var h := s.respuestas.rows[id];
            RespuestaUsuarioViewOf(s)(id, h) in ObtenerRespuestasUsuario(s, h.usuarioAsesorId)
            && forall v :: v in ObtenerTodasLasRespuestasEncuesta(s, h.encuestaId) ==> v.respuestaId != id
  {
    var h := s.respuestas.rows[id];
    RespuestasUsuarioListed(s, h.usuarioAsesorId);
    TodasListed(s, h.encuestaId);
  }

  // ---------------------------------------------------------------------------
  // ObtenerRespuestaPorSolicitud
  // ---------------------------------------------------------------------------

  datatype SolicitudDetalleView = SolicitudDetalleView(
    pregunta: String,
    tipoPregunta: String,
    opcionSeleccionada: Option<String>,
    textoRespuesta: Option<String>)

  datatype SolicitudView = SolicitudView(
    numeroSolicitud: Option<String>,
    tipoAtencion: Option<String>,
    clienteNombre: Option<String>,
    clienteTelefono: Option<String>,
    fechaAtencion: Option<Timestamp>,
    asesor: String,
    sucursal: Option<String>,
    encuesta: String,
    respuestas: seq<SolicitudDetalleView>)

  function SolicitudDetalleViewOf(s: Store): (int, Detalle) -> SolicitudDetalleView
  {
    (id: int, d: Detalle) =>
      var q := QuestionAt(s, d.preguntaId);
      var o := OptionAt(s, d.opcionId);
      SolicitudDetalleView(q.textoPregunta, q.tipoPregunta, if o.Some? then Some(o.value.textoOpcion) else None,
                           d.textoRespuesta)
  }

  function SolicitudViewOf(s: Store, id: int, h: Respuesta): SolicitudView
  {
    SolicitudView(h.numeroSolicitud, h.tipoAtencion, h.clienteNombre, h.clienteTelefono, h.fechaCompletada,
                  UserAt(s, h.usuarioAsesorId).nombre, BranchName(s, h.sucursalId), SurveyAt(s, h.encuestaId).titulo,
                  Project(HeaderDetails(s, id), SolicitudDetalleViewOf(s)))
  }

  /** `r.NumeroSolicitud == numeroSolicitud`, run as SQL with C# null semantics: a null
      number finds a header that has none, and trailing spaces do not count. */
  function WithNumber(numero: Option<String>): Entry<Respuesta> -> bool
  {
    (e: Entry<Respuesta>) => SqlEqualsOpt(e.row.numeroSolicitud, numero)
  }

  /** `ObtenerRespuestaPorSolicitud`. Its `FirstOrDefault` has no `OrderBy`, so among
      several headers with the number the database may return any; the model reads in
      id order and so returns the lowest id. */
  function ObtenerRespuestaPorSolicitud(s: Store, numero: Option<String>): (r: Option<SolicitudView>)
    ensures r.Some? ==> SqlEqualsOpt(r.value.numeroSolicitud, numero)
  {
    FirstEntryFound(s.respuestas, WithNumber(numero));
    match FirstEntry(s.respuestas, WithNumber(numero))
    case None => None
    case Some(e) => Some(SolicitudViewOf(s, e.id, e.row))
  }

  /** Nothing exactly when no header carries the number; otherwise a header that does,
      the one with the lowest id under the model's tie-break. The number is not unique
      in the store. */
  lemma PorSolicitudFound(s: Store, numero: Option<String>)
    ensures var r := ObtenerRespuestaPorSolicitud(s, numero);
            && (r.None? <==> forall id :: id in s.respuestas.rows ==> !SqlEqualsOpt(s.respuestas.rows[id].numeroSolicitud, numero))
            && (r.Some? ==>
                  exists id ::
                    (id in s.respuestas.rows && SqlEqualsOpt(s.respuestas.rows[id].numeroSolicitud, numero)
                     && r.value == SolicitudViewOf(s, id, s.respuestas.rows[id])
                     && forall other :: other in s.respuestas.rows && other < id ==> !SqlEqualsOpt(s.respuestas.rows[other].numeroSolicitud, numero)))
  {
    FirstEntryFound(s.respuestas, WithNumber(numero));
  }

  /** A submission recorded under a number no earlier header carries, as SQL compares
      it, is what a lookup by that number then finds. */
  lemma RecordedSubmissionFoundByNumber(s: Store, encuestaId: int, asesorId: int, req: Requests.ResponderEncuestaRequest,
                                        now: Timestamp, sqlFails: bool, s': Store)
    requires SurveyService.ResponderEncuesta(s, encuestaId, asesorId, req, now, sqlFails) == Success(s')
    requires !IsNullOrEmpty(req.numeroSolicitud)
    requires forall id :: id in s.respuestas.rows ==> !SqlEqualsOpt(s.respuestas.rows[id].numeroSolicitud, req.numeroSolicitud)
    ensures var r := ObtenerRespuestaPorSolicitud(s', req.numeroSolicitud);
            && r == Some(SolicitudViewOf(s', s.respuestas.next, s'.respuestas.rows[s.respuestas.next]))
            && r.value.numeroSolicitud == req.numeroSolicitud
            && r.value.clienteNombre == req.clienteNombre && r.value.tipoAtencion == req.tipoAtencion
            && r.value.fechaAtencion == Some(now)
  {
    var next := s.respuestas.next;
    PorSolicitudFound(s', req.numeroSolicitud);
    assert s'.respuestas.rows[next].numeroSolicitud == req.numeroSolicitud;
  }

  // ---------------------------------------------------------------------------
  // ObtenerRespuestasAsesorPorFecha
  // ---------------------------------------------------------------------------

  /** A completed header of the advisor whose completion lies in [inicio, fin], both
      bounds included. */
  predicate AttendedBetween(h: Respuesta, usuarioId: int, inicio: Timestamp, fin: Timestamp)
  {
    h.usuarioAsesorId == usuarioId && h.fechaCompletada.Some?
    && NotAfter(inicio, h.fechaCompletada.value) && NotAfter(h.fechaCompletada.value, fin)
    && h.estado == EstadoCompletada
  }

  function InWindow(usuarioId: int, inicio: Timestamp, fin: Timestamp): Respuesta -> bool
  {
    (h: Respuesta) => AttendedBetween(h, usuarioId, inicio, fin)
  }

  datatype AtencionView = AtencionView(
    numeroSolicitud: Option<String>,
    tipoAtencion: Option<String>,
    clienteNombre: Option<String>,
    fechaAtencion: Option<Timestamp>,
    encuesta: String,
    sucursal: Option<String>)

  function AtencionViewOf(s: Store): (int, Respuesta) -> AtencionView
  {
    (id: int, h: Respuesta) =>
      AtencionView(h.numeroSolicitud, h.tipoAtencion, h.clienteNombre, h.fechaCompletada,
                   SurveyAt(s, h.encuestaId).titulo, BranchName(s, h.sucursalId))
  }

  function AttendedNewestFirst(s: Store, usuarioId: int, inicio: Timestamp, fin: Timestamp): seq<Entry<Respuesta>>
  {
    NewestFirstTotal();
    SortedRowsBy(s.respuestas, InWindow(usuarioId, inicio, fin), NewestFirst)
  }

  /** `ObtenerRespuestasAsesorPorFecha`. */
  function ObtenerRespuestasAsesorPorFecha(s: Store, usuarioId: int, inicio: Timestamp, fin: Timestamp): (r: seq<AtencionView>)
    ensures forall i :: 0 <= i < |r| ==>
              r[i].fechaAtencion.Some? && NotAfter(inicio, r[i].fechaAtencion.value) && NotAfter(r[i].fechaAtencion.value, fin)
  {
    Project(AttendedNewestFirst(s, usuarioId, inicio, fin), AtencionViewOf(s))
  }

  ghost function AttendedIds(s: Store, usuarioId: int, inicio: Timestamp, fin: Timestamp): set<int>
  {
    set id | id in s.respuestas.rows && AttendedBetween(s.respuestas.rows[id], usuarioId, inicio, fin)
  }

  /** One entry per header attended in the window, newest first. */
  lemma AsesorPorFechaListed(s: Store, usuarioId: int, inicio: Timestamp, fin: Timestamp)
    ensures var r := ObtenerRespuestasAsesorPorFecha(s, usuarioId, inicio, fin);
            && |r| == |AttendedIds(s, usuarioId, inicio, fin)|
            && (forall id :: id in AttendedIds(s, usuarioId, inicio, fin) ==> AtencionViewOf(s)(id, s.respuestas.rows[id]) in r)
            && (forall v :: v in r ==>
                  exists id :: id in AttendedIds(s, usuarioId, inicio, fin) && v == AtencionViewOf(s)(id, s.respuestas.rows[id]))
  {
    var rows := AttendedNewestFirst(s, usuarioId, inicio, fin);
    var r := Project(rows, AtencionViewOf(s));
    ProjectMembers(rows, AtencionViewOf(s));
    assert AttendedIds(s, usuarioId, inicio, fin) == KeptIds(s.respuestas, InWindow(usuarioId, inicio, fin));
    forall id | id in AttendedIds(s, usuarioId, inicio, fin)
      ensures AtencionViewOf(s)(id, s.respuestas.rows[id]) in r
    {
      assert Entry(id, s.respuestas.rows[id]) in rows;
    }
    forall v | v in r
      ensures exists id :: id in AttendedIds(s, usuarioId, inicio, fin) && v == AtencionViewOf(s)(id, s.respuestas.rows[id])
    {
      var e :| e in rows && v == AtencionViewOf(s)(e.id, e.row);
      assert e.id in AttendedIds(s, usuarioId, inicio, fin);
    }
  }

  /** Every listed date lies in the window, and the newest comes first. */
  lemma AsesorPorFechaOrdered(s: Store, usuarioId: int, inicio: Timestamp, fin: Timestamp)
    ensures var r := ObtenerRespuestasAsesorPorFecha(s, usuarioId, inicio, fin);
            && (forall i :: 0 <= i < |r| ==>
                  (r[i].fechaAtencion.Some? && NotAfter(inicio, r[i].fechaAtencion.value)
                   && NotAfter(r[i].fechaAtencion.value, fin)))
            && (forall i, j :: 0 <= i < j < |r| ==> NotAfter(r[j].fechaAtencion.value, r[i].fechaAtencion.value))
  {
    var rows := AttendedNewestFirst(s, usuarioId, inicio, fin);
    var r := ObtenerRespuestasAsesorPorFecha(s, usuarioId, inicio, fin);
    forall i | 0 <= i < |r|
      ensures r[i].fechaAtencion.Some? && NotAfter(inicio, r[i].fechaAtencion.value) && NotAfter(r[i].fechaAtencion.value, fin)
    {
      assert rows[i] in rows;
    }
    forall i, j | 0 <= i < j < |r| ensures NotAfter(r[j].fechaAtencion.value, r[i].fechaAtencion.value) {
      assert rows[i] in rows && rows[j] in rows;
      assert NewestFirst(rows[i].row, rows[j].row);
    }
  }

  /** Both bounds are inclusive: a one-instant window finds what was completed at that
      instant, and a window whose end precedes its start finds nothing. */
  lemma AsesorPorFechaBounds(s: Store, id: int, inicio: Timestamp, fin: Timestamp)
    requires id in s.respuestas.rows && s.respuestas.rows[id].estado == EstadoCompletada
    requires s.respuestas.rows[id].fechaCompletada == Some(inicio)
    ensures var h := s.respuestas.rows[id];
            AtencionViewOf(s)(id, h) in ObtenerRespuestasAsesorPorFecha(s, h.usuarioAsesorId, inicio, inicio)
    ensures fin.Rank() < inicio.Rank() ==> ObtenerRespuestasAsesorPorFecha(s, s.respuestas.rows[id].usuarioAsesorId, inicio, fin) == []
  {
    var h := s.respuestas.rows[id];
    AsesorPorFechaListed(s, h.usuarioAsesorId, inicio, inicio);
    assert id in AttendedIds(s, h.usuarioAsesorId, inicio, inicio);
    AsesorPorFechaOrdered(s, h.usuarioAsesorId, inicio, fin);

  }
}
