/** EncuestaService: recording a submitted survey, numbering requests, creating a survey
    with its questions and options, and reading a survey back in display order. Each
    write runs in a transaction: it either yields the new store or fails, and on
    failure the caller keeps the store it had. */
module SurveyService {
  import opened Wrappers
  import opened Text
  import opened Entities
  import opened Store
  import opened Requests
  import Sequences

  /** Why a transaction rolls back: a save that throws, or a `foreach` over a list the
      request left out (a `NullReferenceException`). */
  datatype RecordError = SaveFailed(cause: StoreError) | NullList

  // ---------------------------------------------------------------------------
  // Request numbers
  // ---------------------------------------------------------------------------

  /** The numbers of one year start with "SOL-{year}-". */
  function YearPrefix(year: int): String
  {
    "SOL-" + IntToString(year) + "-"
  }

  /** SQL `RIGHT(s, 6)`. */
  function Right6(s: String): (r: String)
    ensures |r| == if |s| < 6 then |s| else 6
    ensures r == s[|s| - |r|..]
  {
    if |s| <= 6 then s else s[|s| - 6..]
  }

  predicate IsBlank(c: char)
  {
    c == ' '
  }

  /** SQL `CAST(s AS INT)`: blanks around an optional sign and decimal digits; a string
      with no digits left converts to 0; anything else raises a conversion error. */
  function SqlCastInt(s: String): (r: Option<int>)
  {
    var t := TrimBy(s, IsBlank);
    var digits := if |t| > 0 && (t[0] == '-' || t[0] == '+') then t[1..] else t;
    if !AllDigits(digits) then None
    else
      var magnitude: int := DecimalValue(digits);
      Some(if |t| > 0 && t[0] == '-' then -magnitude else magnitude)
  }

  /** A plain digit string converts to its decimal value. */
  lemma SqlCastIntOfDigits(s: String)
    requires AllDigits(s)
    ensures SqlCastInt(s) == Some(DecimalValue(s))
  {
    TrimByKeeps(s, IsBlank);
  }

  /** Six characters convert to less than a million in magnitude. */
  lemma SqlCastIntBound(s: String)
    requires |s| <= 6 && SqlCastInt(s).Some?
    ensures -1000000 < SqlCastInt(s).value < 1000000
  {
    var t := TrimBy(s, IsBlank);
    var digits := if |t| > 0 && (t[0] == '-' || t[0] == '+') then t[1..] else t;
    DecimalValueBound(digits);
    Pow10Monotone(|digits|, 6);
    assert Pow10(6) == 1000000;
  }

  lemma {:induction false} DecimalValueBound(s: String)
    requires AllDigits(s)
    ensures DecimalValue(s) < Pow10(|s|)
    decreases |s|
  {
    if s != [] {
      DecimalValueBound(s[..|s| - 1]);
    }
  }

  lemma {:induction false} Pow10Monotone(a: nat, b: nat)
    requires a <= b
    ensures Pow10(a) <= Pow10(b)
    decreases b
  {
    if a < b {
      Pow10Monotone(a, b - 1);
    }
  }

  /** The request numbers of `hs` that start with `prefix`, in order. */
  function NumbersWithPrefix(hs: seq<Entry<Respuesta>>, prefix: String): (r: seq<String>)
    ensures forall n :: n in r <==> exists i :: 0 <= i < |hs| && hs[i].row.numeroSolicitud == Some(n) && StartsWith(n, prefix)
  {
    if hs == [] then []
    else
      var n := hs[0].row.numeroSolicitud;
      var rest := NumbersWithPrefix(hs[1..], prefix);
      assert forall i :: 1 <= i < |hs| ==> hs[i] == hs[1..][i - 1];
      if n.Some? && StartsWith(n.value, prefix) then [n.value] + rest else rest
  }

  /** `CAST(RIGHT(n, 6) AS INT)` for one number. */
  function SuffixValue(n: String): Option<int>
  {
    SqlCastInt(Right6(n))
  }

  /** The suffix values of every number; `None` when one of them raises, which aborts
      the whole query. */
  function CastAll(xs: seq<String>): Option<seq<int>>
  {
    Sequences.AllSome(xs, SuffixValue)
  }

  /** `ISNULL(MAX(x), 0)`. */
  function MaxOrZero(xs: seq<int>): (m: int)
    ensures forall i :: 0 <= i < |xs| ==> xs[i] <= m
    ensures xs == [] ==> m == 0
    ensures xs != [] ==> exists i :: 0 <= i < |xs| && xs[i] == m
  {
    if xs == [] then 0
    else if |xs| == 1 then xs[0]
    else
      var m := MaxOrZero(xs[1..]);
      assert forall i :: 1 <= i < |xs| ==> xs[i] == xs[1..][i - 1];
      if xs[0] >= m then xs[0] else m
  }

  /** The query of the generator: the largest suffix among the year's numbers, 0 for
      none, or `None` when a suffix does not convert. */
  function LastNumber(s: Store, year: int): (r: Option<int>)
  {
    match CastAll(NumbersWithPrefix(Entries(s.respuestas), YearPrefix(year)))
    case None => None
    case Some(vs) => Some(MaxOrZero(vs))
  }

  /** "SOL-{now:yyyyMMdd}-{now:HHmmss}". */
  function FallbackNumber(now: Timestamp): String
  {
    "SOL-" + (FormatD(now.year, 4) + FormatD(now.month, 2) + FormatD(now.day, 2)
              + "-" + FormatD(now.hour, 2) + FormatD(now.minute, 2) + FormatD(now.second, 2))
  }

  /** `GenerarNumeroSolicitud`: the year's largest suffix plus one, as at least six
      digits, after the year's prefix; when the query throws (`sqlFails`, or a suffix
      that does not convert), the timestamp form. */
  function GenerarNumeroSolicitud(s: Store, now: Timestamp, sqlFails: bool): (r: String)
    ensures StartsWith(r, "SOL-")
  {
    if sqlFails then FallbackShape(now); FallbackNumber(now)
    else
      match LastNumber(s, now.year)
      case None => FallbackShape(now); FallbackNumber(now)
      case Some(last) =>
        QueriedFormShape(now.year, FormatD(last + 1, 6));
        YearPrefix(now.year) + FormatD(last + 1, 6)
  }

  /** Every number starts with "SOL-"; the queried form with the year's prefix, and when
      the query throws the number is the timestamp form. */
  lemma GeneratedNumberShape(s: Store, now: Timestamp, sqlFails: bool)
    ensures StartsWith(GenerarNumeroSolicitud(s, now, sqlFails), "SOL-")
    ensures sqlFails || LastNumber(s, now.year).None? ==> GenerarNumeroSolicitud(s, now, sqlFails) == FallbackNumber(now)
    ensures !sqlFails && LastNumber(s, now.year).Some? ==>
              StartsWith(GenerarNumeroSolicitud(s, now, sqlFails), YearPrefix(now.year))
  {
    var r := GenerarNumeroSolicitud(s, now, sqlFails);
    if !sqlFails && LastNumber(s, now.year).Some? {
      var f := FormatD(LastNumber(s, now.year).value + 1, 6);
      assert r == YearPrefix(now.year) + f;
      QueriedFormShape(now.year, f);
    } else {
      FallbackShape(now);
    }
  }

  lemma QueriedFormShape(year: int, f: String)
    ensures StartsWith(YearPrefix(year) + f, YearPrefix(year))
    ensures StartsWith(YearPrefix(year) + f, "SOL-")
  {
    StartsWithAppend(YearPrefix(year), f);
    StartsWithAppend("SOL-", IntToString(year) + "-");
    assert YearPrefix(year) == "SOL-" + (IntToString(year) + "-");
  }

  lemma FallbackShape(now: Timestamp)
    ensures StartsWith(FallbackNumber(now), "SOL-")
  {
    StartsWithAppend("SOL-", FallbackNumber(now)[4..]);
  }

  /** A number of exactly `w` digits keeps its width. */
  lemma FormatDWidth(n: nat, w: nat)
    requires 1 <= w && n < Pow10(w)
    ensures |FormatD(n, w)| == w
  {
    NatToDecimalLength(n, w);
  }

  /** The last six characters of a number of at least six characters. */
  lemma Right6OfAppend(prefix: String, f: String)
    requires |f| >= 6
    ensures Right6(prefix + f) == f[|f| - 6..]
  {
    var r := prefix + f;
    assert r[|r| - 6..] == f[|f| - 6..];
  }

  /** Below a million, the suffix of a generated number reads back as the new number. */
  lemma GeneratedSuffixReadsBack(prefix: String, n: nat)
    requires n <= 999999
    ensures |prefix + FormatD(n, 6)| == |prefix| + 6
    ensures SqlCastInt(Right6(prefix + FormatD(n, 6))) == Some(n)
  {
    var f := FormatD(n, 6);
    assert Pow10(6) == 1000000;
    FormatDWidth(n, 6);
    FormatDReadsBack(n, 6);
    Right6OfAppend(prefix, f);
    assert f[|f| - 6..] == f;
    SqlCastIntOfDigits(f);
  }

  /** A negative new number prints its sign before six or more digits, so the last six
      characters are digits and convert to a value of at least zero. */
  lemma GeneratedSuffixNegative(prefix: String, n: int)
    requires n < 0
    ensures SqlCastInt(Right6(prefix + FormatD(n, 6))).Some?
    ensures SqlCastInt(Right6(prefix + FormatD(n, 6))).value >= 0
  {
    var p := PadLeft(NatToDecimal(-n), 6, '0');
    PadLeftDigits(NatToDecimal(-n), 6);
    assert FormatD(n, 6) == "-" + p;
    Sequences.AppendAssoc(prefix, "-", p);
    Right6OfAppend(prefix + "-", p);
    var tail := p[|p| - 6..];
    assert Right6(prefix + FormatD(n, 6)) == tail;
    assert forall i :: 0 <= i < |tail| ==> tail[i] == p[|p| - 6 + i];
    SqlCastIntOfDigits(tail);
  }

  /** A number whose suffix converts above every suffix the query saw is not among the
      numbers it saw. */
  lemma NotAmongCast(xs: seq<String>, r: String)
    requires CastAll(xs).Some?
    requires SqlCastInt(Right6(r)).Some? && SqlCastInt(Right6(r)).value > MaxOrZero(CastAll(xs).value)
    ensures r !in xs
  {
    var vs := CastAll(xs).value;
    forall j | 0 <= j < |xs| ensures xs[j] != r {
      assert SuffixValue(xs[j]) == Some(vs[j]);
      assert vs[j] <= MaxOrZero(vs);
    }
  }

  /** Up to 999999, the suffix of a generated number converts to at least the number. */
  lemma GeneratedSuffixAtLeast(prefix: String, n: int)
    requires n <= 999999
    ensures SqlCastInt(Right6(prefix + FormatD(n, 6))).Some?
    ensures SqlCastInt(Right6(prefix + FormatD(n, 6))).value >= n
  {
    if n >= 0 {
      GeneratedSuffixReadsBack(prefix, n);
    } else {
      GeneratedSuffixNegative(prefix, n);
    }
  }

  /** A number that starts with the prefix but is not among the numbers the query saw is
      on no stored header. */
  lemma AbsentFromStore(s: Store, prefix: String, r: String)
    requires StartsWith(r, prefix) && r !in NumbersWithPrefix(Entries(s.respuestas), prefix)
    ensures forall id :: id in s.respuestas.rows ==> s.respuestas.rows[id].numeroSolicitud != Some(r)
  {
    var hs := Entries(s.respuestas);
    forall id | id in s.respuestas.rows ensures s.respuestas.rows[id].numeroSolicitud != Some(r) {
      assert Entry(id, s.respuestas.rows[id]) in hs;
    }
  }

  /** While the year's largest suffix is below 999999, the generated number differs from
      every number already stored: its suffix converts to more than the largest one. */
  lemma GeneratedNumberFresh(s: Store, now: Timestamp)
    requires LastNumber(s, now.year).Some? && LastNumber(s, now.year).value + 1 <= 999999
    ensures forall id :: id in s.respuestas.rows ==> s.respuestas.rows[id].numeroSolicitud != Some(GenerarNumeroSolicitud(s, now, false))
  {
    var prefix := YearPrefix(now.year);
    var xs := NumbersWithPrefix(Entries(s.respuestas), prefix);
    var last := LastNumber(s, now.year).value;
    var r := GenerarNumeroSolicitud(s, now, false);
    assert r == prefix + FormatD(last + 1, 6);
    QueriedFormShape(now.year, FormatD(last + 1, 6));
    GeneratedSuffixAtLeast(prefix, last + 1);
    NotAmongCast(xs, r);
    AbsentFromStore(s, prefix, r);
  }

  /** The timestamp form is 19 characters for a valid time. */
  lemma FallbackNumberLength(now: Timestamp)
    requires now.Valid()
    ensures |FallbackNumber(now)| == 19
  {
    assert Pow10(2) == 100 && Pow10(4) == 10000;
    FormatDWidth(now.year, 4);
    FormatDWidth(now.month, 2);
    FormatDWidth(now.day, 2);
    FormatDWidth(now.hour, 2);
    FormatDWidth(now.minute, 2);
    FormatDWidth(now.second, 2);
  }

  /** "SOL-{year}-" has at most 9 characters, exactly 9 for a four-digit year. */
  lemma YearPrefixLength(year: int)
    requires 1 <= year <= 9999
    ensures |YearPrefix(year)| <= 9
    ensures 1000 <= year ==> |YearPrefix(year)| == 9
  {
    assert Pow10(4) == 10000 && Pow10(3) == 1000;
    NatToDecimalLength(year, 4);
    if 1000 <= year {
      NatToDecimalAtLeast(year, 4);
    }
  }

  /** The query's result comes from six-character suffixes, so it stays below a million
      in magnitude. */
  lemma LastNumberBound(s: Store, year: int)
    requires LastNumber(s, year).Some?
    ensures -1000000 < LastNumber(s, year).value < 1000000
  {
    var xs := NumbersWithPrefix(Entries(s.respuestas), YearPrefix(year));
    var vs := CastAll(xs).value;
    if vs != [] {
      var i :| 0 <= i < |vs| && vs[i] == MaxOrZero(vs);
      assert SuffixValue(xs[i]) == Some(vs[i]);
      SqlCastIntBound(Right6(xs[i]));
    }
  }

  /** A six-digit format of a number of magnitude at most a million takes at most 7 characters. */
  lemma FormatD6Length(n: int)
    requires -1000000 < n <= 1000000
    ensures |FormatD(n, 6)| <= 7
    ensures 0 <= n < 1000000 ==> |FormatD(n, 6)| == 6
  {
    assert Pow10(7) == 10000000 && Pow10(6) == 1000000;
    if n >= 0 {
      NatToDecimalLength(n, 7);
      if n < 1000000 {
        FormatDWidth(n, 6);
      }
    } else {
      NatToDecimalLength(-n, 6);
    }
  }

  /** Generated numbers always fit the 50-character column: at most 16 characters
      normally, 19 for the timestamp form. For a four-digit year and a suffix below a
      million the number is "SOL-YYYY-NNNNNN", 15 characters. */
  lemma GeneratedNumberFits(s: Store, now: Timestamp, sqlFails: bool)
    requires now.Valid()
    ensures |GenerarNumeroSolicitud(s, now, sqlFails)| <= 50
    ensures (!sqlFails && LastNumber(s, now.year).Some? && 1000 <= now.year
             && 0 <= LastNumber(s, now.year).value + 1 <= 999999) ==> |GenerarNumeroSolicitud(s, now, sqlFails)| == 15
  {
    var r := GenerarNumeroSolicitud(s, now, sqlFails);
    if !sqlFails && LastNumber(s, now.year).Some? {
      var n := LastNumber(s, now.year).value + 1;
      assert r == YearPrefix(now.year) + FormatD(n, 6);
      YearPrefixLength(now.year);
      LastNumberBound(s, now.year);
      FormatD6Length(n);
    } else {
      assert r == FallbackNumber(now);
      FallbackNumberLength(now);
    }
  }

  /** A number of at least 10^(k-1) has at least k digits. */
  lemma {:induction false} NatToDecimalAtLeast(n: nat, k: nat)
    requires 1 <= k && Pow10(k - 1) <= n
    ensures |NatToDecimal(n)| >= k
    decreases k
  {
    if k > 1 {
      Pow10Monotone(0, k - 2);
      assert n >= 10;
      NatToDecimalAtLeast(n / 10, k - 1);
    }
  }

  // ---------------------------------------------------------------------------
  // Answers become detail rows
  // ---------------------------------------------------------------------------

  /** A non-empty list of selected options: the multi-select shape, which wins. */
  predicate MultiSelect(a: RespuestaPreguntaRequest)
  {
    a.opcionesSeleccionadas.Some? && a.opcionesSeleccionadas.value != []
  }

  /** The detail rows one answer adds under the header `headerId`: one per selected
      option of a multi-select answer; otherwise one for the single option; otherwise
      one for a non-empty text; otherwise none. */
  function ExpandAnswer(headerId: int, a: RespuestaPreguntaRequest, now: Timestamp): (r: seq<Detalle>)
    ensures forall k :: 0 <= k < |r| ==>
              r[k].respuestaEncuestaId == headerId && r[k].preguntaId == a.preguntaId && r[k].fechaRespuesta == now
    ensures forall k :: 0 <= k < |r| ==> r[k].opcionId.Some? != r[k].textoRespuesta.Some?
    ensures MultiSelect(a) ==>
              |r| == |a.opcionesSeleccionadas.value|
              && forall k :: 0 <= k < |r| ==> r[k].opcionId == Some(a.opcionesSeleccionadas.value[k])
    ensures !MultiSelect(a) && a.opcionSeleccionada.Some? ==> |r| == 1 && r[0].opcionId == a.opcionSeleccionada
    ensures !MultiSelect(a) && a.opcionSeleccionada.None? && !IsNullOrEmpty(a.textoRespuesta) ==>
              |r| == 1 && r[0].textoRespuesta == a.textoRespuesta
    ensures !MultiSelect(a) && a.opcionSeleccionada.None? && IsNullOrEmpty(a.textoRespuesta) ==> r == []
  {
    if MultiSelect(a) then
      var ids := a.opcionesSeleccionadas.value;
      seq(|ids|, k requires 0 <= k < |ids| => Detalle(headerId, a.preguntaId, Some(ids[k]), None, now))
    else if a.opcionSeleccionada.Some? then [Detalle(headerId, a.preguntaId, a.opcionSeleccionada, None, now)]
    else if !IsNullOrEmpty(a.textoRespuesta) then [Detalle(headerId, a.preguntaId, None, a.textoRespuesta, now)]
    else []
  }

  /** The rows of all answers, answer by answer. */
  function ExpandAll(headerId: int, answers: seq<RespuestaPreguntaRequest>, now: Timestamp): (r: seq<Detalle>)
    ensures forall k :: 0 <= k < |r| ==>
              r[k].respuestaEncuestaId == headerId && r[k].fechaRespuesta == now
              && r[k].opcionId.Some? != r[k].textoRespuesta.Some?
    ensures forall d :: d in r <==> exists i :: 0 <= i < |answers| && d in ExpandAnswer(headerId, answers[i], now)
  {
    if answers == [] then []
    else
      var rest := ExpandAll(headerId, answers[1..], now);
      assert forall i :: 1 <= i < |answers| ==> answers[i] == answers[1..][i - 1];
      ExpandAnswer(headerId, answers[0], now) + rest
  }

  /** A multi-select answer's rows do not depend on its single option or its text. */
  lemma MultiSelectWins(headerId: int, a: RespuestaPreguntaRequest, single: Option<int>, text: Option<String>, now: Timestamp)
    requires MultiSelect(a)
    ensures ExpandAnswer(headerId, a, now) == ExpandAnswer(headerId, a.(opcionSeleccionada := single, textoRespuesta := text), now)
  {
  }

  /** Without a multi-select list, a single option's row does not depend on the text. */
  lemma SingleOptionBeatsText(headerId: int, a: RespuestaPreguntaRequest, text: Option<String>, now: Timestamp)
    requires !MultiSelect(a) && a.opcionSeleccionada.Some?
    ensures ExpandAnswer(headerId, a, now) == ExpandAnswer(headerId, a.(textoRespuesta := text), now)
  {
  }

  // ---------------------------------------------------------------------------
  // Recording a submission
  // ---------------------------------------------------------------------------

  /** The request number recorded: the supplied one if non-empty, else a generated one. */
  function NumeroFor(s: Store, req: ResponderEncuestaRequest, now: Timestamp, sqlFails: bool): String
  {
    if IsNullOrEmpty(req.numeroSolicitud) then GenerarNumeroSolicitud(s, now, sqlFails) else req.numeroSolicitud.value
  }

  /** The header of a submission, started and completed at `now`. */
  function Header(encuestaId: int, asesorId: int, req: ResponderEncuestaRequest, numero: String, now: Timestamp): Respuesta
  {
    Respuesta(encuestaId, asesorId, Some(req.sucursalId), Some(numero), req.tipoAtencion, req.clienteNombre,
              req.clienteTelefono, now, Some(now), EstadoCompletada)
  }

  /** A detail row's question exists, and so does its option when it names one. The
      header it names is the one being saved. */
  predicate AnswerRowResolves(s: Store, d: Detalle)
  {
    d.preguntaId in s.preguntas.rows && Resolves(d.opcionId, s.opciones.rows.Keys)
  }

  /** `ResponderEncuesta`: saves the header, then the rows of every answer, in one
      transaction. Whether an answered question or option belongs to the survey is not
      checked, and neither is an earlier submission: only the unique index on
      (survey, advisor) turns a second one away. */
  function ResponderEncuesta(s: Store, encuestaId: int, asesorId: int, req: ResponderEncuestaRequest,
                             now: Timestamp, sqlFails: bool): (r: Result<Store, RecordError>)
    ensures var h := Header(encuestaId, asesorId, req, NumeroFor(s, req, now, sqlFails), now);
            r.Success? <==>
              FitsRespuesta(h) && !ResponderTaken(s, encuestaId, asesorId) && HeaderResolves(s, h)
              && req.respuestas.Some?
              && forall d :: d in ExpandAll(s.respuestas.next, req.respuestas.value, now) ==> AnswerRowResolves(s, d)
    ensures var h := Header(encuestaId, asesorId, req, NumeroFor(s, req, now, sqlFails), now);
            FitsRespuesta(h) && ResponderTaken(s, encuestaId, asesorId) ==> r == Failure(SaveFailed(DuplicateKey))
    ensures r.Success? ==> s.respuestas.next in r.value.respuestas.rows
    ensures r.Success? ==>
              var h := r.value.respuestas.rows[s.respuestas.next];
              && r.value.respuestas.rows == s.respuestas.rows[s.respuestas.next := h]
              && r.value.respuestas.next == s.respuestas.next + 1
              && h.encuestaId == encuestaId && h.usuarioAsesorId == asesorId
              && h.estado == EstadoCompletada && h.sucursalId == Some(req.sucursalId)
              && h.numeroSolicitud == Some(if IsNullOrEmpty(req.numeroSolicitud) then GenerarNumeroSolicitud(s, now, sqlFails)
                                           else req.numeroSolicitud.value)
              && h.tipoAtencion == req.tipoAtencion && h.clienteNombre == req.clienteNombre
              && h.clienteTelefono == req.clienteTelefono
              && h.fechaInicio == now && h.fechaCompletada == Some(now)
    ensures r.Success? ==> r.value.detalles == AddAll(s.detalles, ExpandAll(s.respuestas.next, req.respuestas.value, now))
    ensures r.Success? ==> r.value.usuarios == s.usuarios && r.value.encuestas == s.encuestas
                           && r.value.preguntas == s.preguntas && r.value.opciones == s.opciones
                           && r.value.sucursales == s.sucursales
  {
    var h := Header(encuestaId, asesorId, req, NumeroFor(s, req, now, sqlFails), now);
    match InsertRespuesta(s, h)
    case Failure(e) => Failure(SaveFailed(e))
    case Success((s1, id)) =>
      if req.respuestas.None? then Failure(NullList)
      else
        var rows := ExpandAll(id, req.respuestas.value, now);
        assert forall d :: DetailResolves(s1, d) <==> d.respuestaEncuestaId in s1.respuestas.rows && AnswerRowResolves(s, d);
        match InsertDetalles(s1, rows)
        case Failure(e) => Failure(SaveFailed(e))
        case Success(s2) => Success(s2)
  }

  /** `UsuarioYaRespondio`: some header pairs the survey with the user. */
  function UsuarioYaRespondio(s: Store, encuestaId: int, usuarioId: int): (r: bool)
    ensures r <==> exists id :: id in s.respuestas.rows && s.respuestas.rows[id].encuestaId == encuestaId
                                && s.respuestas.rows[id].usuarioAsesorId == usuarioId
  {
    ResponderTaken(s, encuestaId, usuarioId)
  }

  /** A recorded submission keeps the store's invariant. */
  lemma ResponderEncuestaConsistent(s: Store, encuestaId: int, asesorId: int, req: ResponderEncuestaRequest,
                                    now: Timestamp, sqlFails: bool)
    requires Consistent(s) && ResponderEncuesta(s, encuestaId, asesorId, req, now, sqlFails).Success?
    ensures Consistent(ResponderEncuesta(s, encuestaId, asesorId, req, now, sqlFails).value)
  {
    var h := Header(encuestaId, asesorId, req, NumeroFor(s, req, now, sqlFails), now);
    InsertRespuestaConsistent(s, h);
    var s1 := InsertRespuesta(s, h).value.0;
    var id := InsertRespuesta(s, h).value.1;
    InsertDetallesConsistent(s1, ExpandAll(id, req.respuestas.value, now));
  }

  /** Some answer of the list is about question `preguntaId`. */
  predicate Answered(answers: seq<RespuestaPreguntaRequest>, preguntaId: int)
  {
    exists i :: 0 <= i < |answers| && answers[i].preguntaId == preguntaId
  }

  /** Each stored detail row of a submission names the new header and an answered question. */
  lemma RecordedRowsNameTheHeader(s: Store, encuestaId: int, asesorId: int, req: ResponderEncuestaRequest,
                                  now: Timestamp, sqlFails: bool)
    requires ResponderEncuesta(s, encuestaId, asesorId, req, now, sqlFails).Success?
    ensures var s' := ResponderEncuesta(s, encuestaId, asesorId, req, now, sqlFails).value;
            forall id :: id in s'.detalles.rows && id !in s.detalles.rows ==>
              s'.detalles.rows[id].respuestaEncuestaId == s.respuestas.next
              && Answered(req.respuestas.value, s'.detalles.rows[id].preguntaId)
  {
    var s' := ResponderEncuesta(s, encuestaId, asesorId, req, now, sqlFails).value;
    var rows := ExpandAll(s.respuestas.next, req.respuestas.value, now);
    forall id | id in s'.detalles.rows && id !in s.detalles.rows
      ensures s'.detalles.rows[id].respuestaEncuestaId == s.respuestas.next
              && Answered(req.respuestas.value, s'.detalles.rows[id].preguntaId)
    {
      var k := id - s.detalles.next;
      assert s'.detalles.rows[id] == rows[k];
      assert rows[k] in rows;
      var i :| 0 <= i < |req.respuestas.value| && rows[k] in ExpandAnswer(s.respuestas.next, req.respuestas.value[i], now);
    }
  }

  /** With the pre-check commented out, a second submission by the same advisor for the
      same survey fails at the header insert; with a valid header the cause is the
      unique index. */
  lemma SecondSubmissionRejected(s: Store, encuestaId: int, asesorId: int,
                                 req: ResponderEncuestaRequest, now: Timestamp, sqlFails: bool,
                                 req2: ResponderEncuestaRequest, now2: Timestamp, sqlFails2: bool)
    requires ResponderEncuesta(s, encuestaId, asesorId, req, now, sqlFails).Success?
    ensures var s' := ResponderEncuesta(s, encuestaId, asesorId, req, now, sqlFails).value;
            var h2 := Header(encuestaId, asesorId, req2, NumeroFor(s', req2, now2, sqlFails2), now2);
            ResponderEncuesta(s', encuestaId, asesorId, req2, now2, sqlFails2).Failure?
            && (FitsRespuesta(h2) ==> ResponderEncuesta(s', encuestaId, asesorId, req2, now2, sqlFails2) == Failure(SaveFailed(DuplicateKey)))
  {
    var s' := ResponderEncuesta(s, encuestaId, asesorId, req, now, sqlFails).value;
    assert s'.respuestas.rows[s.respuestas.next].encuestaId == encuestaId;
    assert ResponderTaken(s', encuestaId, asesorId);
  }

  /** What `UsuarioYaRespondio` reports is exactly what makes a submission fail. */
  lemma AnsweredUserCannotSubmit(s: Store, encuestaId: int, asesorId: int, req: ResponderEncuestaRequest,
                                 now: Timestamp, sqlFails: bool)
    requires UsuarioYaRespondio(s, encuestaId, asesorId)
    ensures ResponderEncuesta(s, encuestaId, asesorId, req, now, sqlFails).Failure?
  {
  }

  /** A request that passed validation, submitted at a valid time, always yields a header
      its columns accept: a supplied number is capped at 50 characters by the request's
      annotation and a generated one is at most 19. */
  lemma ValidRequestGivesValidHeader(s: Store, encuestaId: int, asesorId: int, req: ResponderEncuestaRequest,
                                     now: Timestamp, sqlFails: bool)
    requires ValidResponderRequest(req) && now.Valid()
    ensures FitsRespuesta(Header(encuestaId, asesorId, req, NumeroFor(s, req, now, sqlFails), now))
  {
    GeneratedNumberFits(s, now, sqlFails);
  }

  // ---------------------------------------------------------------------------
  // Creating a survey
  // ---------------------------------------------------------------------------

  /** The options of a question request; a missing list adds none. */
  function OptionsOf(q: CrearPreguntaRequest): seq<CrearOpcionRequest>
  {
    if q.opciones.Some? then q.opciones.value else []
  }

  /** The survey row a request creates. A missing title would reach its NOT NULL
      column as `null` and is refused before this row is saved (see `CrearEncuesta`),
      so the empty string standing for it here is never stored. */
  function SurveyRow(req: CrearEncuestaRequest, adminId: int, now: Timestamp): Encuesta
  {
    NewEncuesta(req.titulo.GetOr([]), req.descripcion, adminId, req.fechaLimite, now)
  }

  /** The question row of a request; as for the title, a missing text or type is
      refused before the row is saved (see `SaveQuestion`). */
  function QuestionRow(encuestaId: int, q: CrearPreguntaRequest): Pregunta
  {
    Pregunta(encuestaId, q.textoPregunta.GetOr([]), q.tipoPregunta.GetOr([]), q.obligatoria, q.orden)
  }

  function OptionRow(preguntaId: int, o: CrearOpcionRequest): Opcion
  {
    Opcion(preguntaId, o.textoOpcion.GetOr([]), o.valor, o.orden)
  }

  function QuestionRows(encuestaId: int, qs: seq<CrearPreguntaRequest>): (r: seq<Pregunta>)
    ensures |r| == |qs|
    ensures forall i :: 0 <= i < |qs| ==> r[i] == QuestionRow(encuestaId, qs[i])
  {
    seq(|qs|, i requires 0 <= i < |qs| => QuestionRow(encuestaId, qs[i]))
  }

  function OptionRowsOf(preguntaId: int, os: seq<CrearOpcionRequest>): (r: seq<Opcion>)
    ensures |r| == |os|
    ensures forall j :: 0 <= j < |os| ==> r[j] == OptionRow(preguntaId, os[j])
  {
    seq(|os|, j requires 0 <= j < |os| => OptionRow(preguntaId, os[j]))
  }

  /** The option rows of every question, in order, when the questions get the ids
      `firstId`, `firstId + 1`, ...: each option names one of those ids. */
  function OptionRows(firstId: int, qs: seq<CrearPreguntaRequest>): (r: seq<Opcion>)
    ensures forall k :: 0 <= k < |r| ==> firstId <= r[k].preguntaId < firstId + |qs|
    decreases |qs|
  {
    if qs == [] then [] else OptionRowsOf(firstId, OptionsOf(qs[0])) + OptionRows(firstId + 1, qs[1..])
  }

  lemma QuestionRowsCons(encuestaId: int, qs: seq<CrearPreguntaRequest>)
    requires qs != []
    ensures QuestionRows(encuestaId, qs) == [QuestionRow(encuestaId, qs[0])] + QuestionRows(encuestaId, qs[1..])
  {
    var r := QuestionRows(encuestaId, qs);
    assert forall i :: 1 <= i < |qs| ==> r[i] == QuestionRows(encuestaId, qs[1..])[i - 1];
  }

  lemma OptionRowsCons(firstId: int, qs: seq<CrearPreguntaRequest>)
    requires qs != []
    ensures OptionRows(firstId, qs) == OptionRowsOf(firstId, OptionsOf(qs[0])) + OptionRows(firstId + 1, qs[1..])
  {
  }

  /** An option request whose row the columns accept: a text, at most 500
      characters, and a value of at most 100. A blank text is saved. */
  predicate OptionSaves(o: CrearOpcionRequest)
  {
    o.textoOpcion.Some? && MaxLength(o.textoOpcion, 500) && MaxLength(o.valor, 100)
  }

  /** A question request whose row, and every option row of which, the columns accept:
      a text and a type of at most 20 characters. */
  predicate QuestionSaves(q: CrearPreguntaRequest)
  {
    q.textoPregunta.Some? && q.tipoPregunta.Some? && MaxLength(q.tipoPregunta, 20)
    && forall j :: 0 <= j < |OptionsOf(q)| ==> OptionSaves(OptionsOf(q)[j])
  }

  /** The options of one question, added in order and saved: each needs a text and
      values that fit their columns, and the question must exist. */
  function CreateOptions(s: Store, preguntaId: int, os: seq<CrearOpcionRequest>): (r: Result<Store, StoreError>)
    ensures r.Success? <==> (os == [] || preguntaId in s.preguntas.rows) && forall j :: 0 <= j < |os| ==> OptionSaves(os[j])
    ensures preguntaId in s.preguntas.rows && r.Failure? ==> r.error == ColumnRejected
    ensures r.Success? ==> r.value == s.(opciones := AddAll(s.opciones, OptionRowsOf(preguntaId, os)))
    decreases |os|
  {
    if os == [] then Success(s)
    else if os[0].textoOpcion.None? then Failure(ColumnRejected)
    else
      assert forall j :: 1 <= j < |os| ==> os[j] == os[1..][j - 1];
      match InsertOpcion(s, OptionRow(preguntaId, os[0]))
      case Failure(e) => Failure(e)
      case Success((s1, _)) =>
        assert OptionRowsOf(preguntaId, os)[1..] == OptionRowsOf(preguntaId, os[1..]);
        CreateOptions(s1, preguntaId, os[1..])
  }

  /** One question saved, then its options: it needs the survey, and every string
      present and within its column. */
  function SaveQuestion(s: Store, encuestaId: int, q: CrearPreguntaRequest): (r: Result<Store, StoreError>)
    ensures r.Success? <==> encuestaId in s.encuestas.rows && QuestionSaves(q)
    ensures encuestaId in s.encuestas.rows && r.Failure? ==> r.error == ColumnRejected
    ensures r.Success? ==>
              && r.value.preguntas == Add(s.preguntas, QuestionRow(encuestaId, q)).0
              && r.value.opciones == AddAll(s.opciones, OptionRowsOf(s.preguntas.next, OptionsOf(q)))
              && r.value.usuarios == s.usuarios && r.value.encuestas == s.encuestas
              && r.value.respuestas == s.respuestas && r.value.detalles == s.detalles
              && r.value.sucursales == s.sucursales
  {
    if q.textoPregunta.None? || q.tipoPregunta.None? then Failure(ColumnRejected)
    else
      match InsertPregunta(s, QuestionRow(encuestaId, q))
      case Failure(e) => Failure(e)
      case Success((s1, pid)) =>
        assert pid in s1.preguntas.rows;
        CreateOptions(s1, pid, OptionsOf(q))
  }

  /** `after` is `before` with the question rows of the batch and their option rows
      added, and nothing else changed. */
  predicate AddsBatch(before: Store, encuestaId: int, qs: seq<CrearPreguntaRequest>, after: Store)
  {
    && after.preguntas == AddAll(before.preguntas, QuestionRows(encuestaId, qs))
    && after.opciones == AddAll(before.opciones, OptionRows(before.preguntas.next, qs))
    && after.usuarios == before.usuarios && after.encuestas == before.encuestas
    && after.respuestas == before.respuestas && after.detalles == before.detalles
    && after.sucursales == before.sucursales
  }

  /** The questions of a survey, each saved on its own and followed by its options. */
  function CreateQuestions(s: Store, encuestaId: int, qs: seq<CrearPreguntaRequest>): (r: Result<Store, StoreError>)
    decreases |qs|
  {
    if qs == [] then Success(s)
    else
      match SaveQuestion(s, encuestaId, qs[0])
      case Failure(e) => Failure(e)
      case Success(s2) => CreateQuestions(s2, encuestaId, qs[1..])
  }

  /** A saved batch adds exactly the batch's question rows, and after them their
      option rows, question by question. */
  lemma {:induction false} CreateQuestionsAdds(s: Store, encuestaId: int, qs: seq<CrearPreguntaRequest>)
    ensures CreateQuestions(s, encuestaId, qs).Success? ==>
              AddsBatch(s, encuestaId, qs, CreateQuestions(s, encuestaId, qs).value)
    decreases |qs|
  {
    if qs != [] {
      var saved := SaveQuestion(s, encuestaId, qs[0]);
      if saved.Success? {
        CreateQuestionsAdds(saved.value, encuestaId, qs[1..]);
        SavedQuestionsStep(s, encuestaId, qs);
        SavedOptionsStep(s, encuestaId, qs);
        assert CreateQuestions(s, encuestaId, qs) == CreateQuestions(saved.value, encuestaId, qs[1..]);
      }
    }
  }

  /** Saving the first question touches only the question and option tables, and its
      question row, then those of the rest, are the question rows of the batch. */
  lemma SavedQuestionsStep(s: Store, encuestaId: int, qs: seq<CrearPreguntaRequest>)
    requires qs != [] && SaveQuestion(s, encuestaId, qs[0]).Success?
    ensures var s2 := SaveQuestion(s, encuestaId, qs[0]).value;
            && s2.usuarios == s.usuarios && s2.encuestas == s.encuestas && s2.respuestas == s.respuestas
            && s2.detalles == s.detalles && s2.sucursales == s.sucursales
            && AddAll(s2.preguntas, QuestionRows(encuestaId, qs[1..])) == AddAll(s.preguntas, QuestionRows(encuestaId, qs))
  {
    var s2 := SaveQuestion(s, encuestaId, qs[0]).value;
    assert s2.preguntas == Add(s.preguntas, QuestionRow(encuestaId, qs[0])).0;
    QuestionBatchStep(s, encuestaId, qs);
  }

  /** The option rows of the first question, then of the rest, are those of the batch. */
  lemma SavedOptionsStep(s: Store, encuestaId: int, qs: seq<CrearPreguntaRequest>)
    requires qs != [] && SaveQuestion(s, encuestaId, qs[0]).Success?
    ensures var s2 := SaveQuestion(s, encuestaId, qs[0]).value;
            AddAll(s2.opciones, OptionRows(s2.preguntas.next, qs[1..])) == AddAll(s.opciones, OptionRows(s.preguntas.next, qs))
  {
    var s2 := SaveQuestion(s, encuestaId, qs[0]).value;
    OptionBatchStep(s.opciones, s.preguntas.next, s2.preguntas.next, qs);
  }

  /** Every question request of the batch passes, with its options. */
  predicate AllQuestionsSave(qs: seq<CrearPreguntaRequest>)
  {
    forall i :: 0 <= i < |qs| ==> QuestionSaves(qs[i])
  }

  lemma AllQuestionsSaveCons(qs: seq<CrearPreguntaRequest>)
    requires qs != []
    ensures AllQuestionsSave(qs) <==> QuestionSaves(qs[0]) && AllQuestionsSave(qs[1..])
  {
    assert forall i :: 1 <= i < |qs| ==> qs[i] == qs[1..][i - 1];
  }

  /** The questions are saved exactly when the survey exists (or there is nothing to
      save) and the columns accept every question and option. */
  lemma {:induction false} CreateQuestionsSucceeds(s: Store, encuestaId: int, qs: seq<CrearPreguntaRequest>)
    ensures CreateQuestions(s, encuestaId, qs).Success? <==>
              (qs == [] || encuestaId in s.encuestas.rows) && AllQuestionsSave(qs)
    ensures encuestaId in s.encuestas.rows && CreateQuestions(s, encuestaId, qs).Failure? ==>
              CreateQuestions(s, encuestaId, qs).error == ColumnRejected
    decreases |qs|
  {
    if qs != [] {
      AllQuestionsSaveCons(qs);
      var saved := SaveQuestion(s, encuestaId, qs[0]);
      if saved.Success? {
        CreateQuestionsSucceeds(saved.value, encuestaId, qs[1..]);
      }
    }
  }

  /** Saving the first question and its options, then the rest, adds the same rows as
      adding all of them in one batch. */
  lemma QuestionBatchStep(s: Store, encuestaId: int, qs: seq<CrearPreguntaRequest>)
    requires qs != []
    ensures AddAll(Add(s.preguntas, QuestionRow(encuestaId, qs[0])).0, QuestionRows(encuestaId, qs[1..]))
            == AddAll(s.preguntas, QuestionRows(encuestaId, qs))
  {
    QuestionRowsCons(encuestaId, qs);
    AddAllCons(s.preguntas, QuestionRow(encuestaId, qs[0]), QuestionRows(encuestaId, qs[1..]));
  }

  lemma OptionBatchStep(t: Table<Opcion>, pid: int, next: int, qs: seq<CrearPreguntaRequest>)
    requires qs != [] && next == pid + 1
    ensures AddAll(AddAll(t, OptionRowsOf(pid, OptionsOf(qs[0]))), OptionRows(next, qs[1..]))
            == AddAll(t, OptionRows(pid, qs))
  {
    OptionRowsCons(pid, qs);
    AddAllAppend(t, OptionRowsOf(pid, OptionsOf(qs[0])), OptionRows(next, qs[1..]));
  }

  /** `CrearEncuesta`: saves the survey, active and created at `now`, then each question
      followed by its options, in one transaction. A missing question list throws
      once the survey is saved, and the transaction is rolled back. On success the
      survey's id is returned. */
  function CrearEncuesta(s: Store, req: CrearEncuestaRequest, adminId: int, now: Timestamp): (r: Result<(Store, int), RecordError>)
    ensures r.Success? <==>
              req.titulo.Some? && MaxLength(req.titulo, 200) && adminId in s.usuarios.rows
              && req.preguntas.Some? && forall i :: 0 <= i < |req.preguntas.value| ==> QuestionSaves(req.preguntas.value[i])
    ensures r == Failure(NullList) <==>
              req.titulo.Some? && MaxLength(req.titulo, 200) && adminId in s.usuarios.rows && req.preguntas.None?
    ensures req.titulo.None? || !MaxLength(req.titulo, 200) ==> r == Failure(SaveFailed(ColumnRejected))
    ensures r.Success? ==>
              var (s', id) := r.value;
              && id == s.encuestas.next && s'.encuestas.rows == s.encuestas.rows[id := SurveyRow(req, adminId, now)]
              && s'.encuestas.next == id + 1
              && s'.preguntas == AddAll(s.preguntas, QuestionRows(id, req.preguntas.value))
              && s'.opciones == AddAll(s.opciones, OptionRows(s.preguntas.next, req.preguntas.value))
              && s'.usuarios == s.usuarios && s'.respuestas == s.respuestas && s'.detalles == s.detalles
              && s'.sucursales == s.sucursales
    ensures r.Success? ==>
              var e := r.value.0.encuestas.rows[r.value.1];
              e.titulo == req.titulo.value && e.descripcion == req.descripcion && e.usuarioAdminId == adminId
              && e.fechaLimite == req.fechaLimite && e.fechaCreacion == now && e.activa
  {
    if req.titulo.None? then Failure(SaveFailed(ColumnRejected))
    else
      match InsertEncuesta(s, SurveyRow(req, adminId, now))
      case Failure(e) => Failure(SaveFailed(e))
      case Success((s1, id)) =>
        if req.preguntas.None? then Failure(NullList)
        else
          CreateQuestionsSucceeds(s1, id, req.preguntas.value);
          CreateQuestionsAdds(s1, id, req.preguntas.value);
          match CreateQuestions(s1, id, req.preguntas.value)
          case Failure(e) => Failure(SaveFailed(e))
          case Success(s2) => Success((s2, id))
  }

  lemma {:induction false} CreateOptionsConsistent(s: Store, preguntaId: int, os: seq<CrearOpcionRequest>)
    requires Consistent(s) && CreateOptions(s, preguntaId, os).Success?
    ensures Consistent(CreateOptions(s, preguntaId, os).value)
    decreases |os|
  {
    if os != [] {
      InsertOpcionConsistent(s, OptionRow(preguntaId, os[0]));
      CreateOptionsConsistent(InsertOpcion(s, OptionRow(preguntaId, os[0])).value.0, preguntaId, os[1..]);
    }
  }

  lemma {:induction false} CreateQuestionsConsistent(s: Store, encuestaId: int, qs: seq<CrearPreguntaRequest>)
    requires Consistent(s) && CreateQuestions(s, encuestaId, qs).Success?
    ensures Consistent(CreateQuestions(s, encuestaId, qs).value)
    decreases |qs|
  {
    if qs != [] {
      var (s1, pid) := InsertPregunta(s, QuestionRow(encuestaId, qs[0])).value;
      InsertPreguntaConsistent(s, QuestionRow(encuestaId, qs[0]));
      CreateOptionsConsistent(s1, pid, OptionsOf(qs[0]));
      CreateQuestionsConsistent(CreateOptions(s1, pid, OptionsOf(qs[0])).value, encuestaId, qs[1..]);
    }
  }

  /** A created survey, with its questions and options, keeps the store's invariant. */
  lemma CrearEncuestaConsistent(s: Store, req: CrearEncuestaRequest, adminId: int, now: Timestamp)
    requires Consistent(s) && CrearEncuesta(s, req, adminId, now).Success?
    ensures Consistent(CrearEncuesta(s, req, adminId, now).value.0)
  {
    InsertEncuestaConsistent(s, SurveyRow(req, adminId, now));
    var (s1, id) := InsertEncuesta(s, SurveyRow(req, adminId, now)).value;
    CreateQuestionsConsistent(s1, id, req.preguntas.value);
  }

  /** The rows a creation adds hang together: every new question belongs to the new
      survey, and every new option to one of the new questions. */
  lemma CreatedRowsLinked(s: Store, req: CrearEncuestaRequest, adminId: int, now: Timestamp)
    requires CrearEncuesta(s, req, adminId, now).Success?
    ensures var (s', id) := CrearEncuesta(s, req, adminId, now).value;
            && (forall p :: p in s'.preguntas.rows && p !in s.preguntas.rows ==> s'.preguntas.rows[p].encuestaId == id)
            && (forall o :: o in s'.opciones.rows && o !in s.opciones.rows ==>
                  var p := s'.opciones.rows[o].preguntaId;
                  p in s'.preguntas.rows && p !in s.preguntas.rows)
  {
    var (s', id) := CrearEncuesta(s, req, adminId, now).value;
    var qs := req.preguntas.value;
    var rows := OptionRows(s.preguntas.next, qs);
    assert s'.preguntas == AddAll(s.preguntas, QuestionRows(id, qs)) && s'.opciones == AddAll(s.opciones, rows);
    forall p | p in s'.preguntas.rows && p !in s.preguntas.rows ensures s'.preguntas.rows[p].encuestaId == id {
      assert s'.preguntas.rows[p] == QuestionRows(id, qs)[p - s.preguntas.next];
    }
    forall o | o in s'.opciones.rows && o !in s.opciones.rows
      ensures s'.opciones.rows[o].preguntaId in s'.preguntas.rows && s'.opciones.rows[o].preguntaId !in s.preguntas.rows
    {
      assert s'.opciones.rows[o] == rows[o - s.opciones.next];
    }
  }

  /** A request that passes the binder's validation, whose question types and option
      texts and values also fit their columns, creates the survey for an existing
      administrator. */
  lemma ValidRequestCreates(s: Store, req: CrearEncuestaRequest, adminId: int, now: Timestamp)
    requires ValidEncuestaRequest(req) && adminId in s.usuarios.rows
    requires forall i :: 0 <= i < |req.preguntas.value| ==>
               var q := req.preguntas.value[i];
               MaxLength(q.tipoPregunta, 20)
               && forall j :: 0 <= j < |OptionsOf(q)| ==> MaxLength(OptionsOf(q)[j].textoOpcion, 500) && MaxLength(OptionsOf(q)[j].valor, 100)
    ensures CrearEncuesta(s, req, adminId, now).Success?
  {
    forall i | 0 <= i < |req.preguntas.value| ensures QuestionSaves(req.preguntas.value[i]) {
      var q := req.preguntas.value[i];
      assert ValidPreguntaRequest(q);
      forall j | 0 <= j < |OptionsOf(q)| ensures OptionSaves(OptionsOf(q)[j]) {
        assert ValidOpcionRequest(q.opciones.value[j]);
      }
    }
  }

  /** Nothing checks the annotations on a save: a survey with an empty title and a
      blank question is created, while a missing title is refused by its NOT NULL
      column. */
  lemma BlankSurveyCreated(s: Store, adminId: int, now: Timestamp)
    requires adminId in s.usuarios.rows
    ensures var q := CrearPreguntaRequest(Some(" "), Some(TipoTextoLibre), false, 1, None);
            CrearEncuesta(s, CrearEncuestaRequest(Some(""), None, None, Some([q])), adminId, now).Success?
    ensures CrearEncuesta(s, CrearEncuestaRequest(None, None, None, Some([])), adminId, now)
            == Failure(SaveFailed(ColumnRejected))
  {
  }

  // ---------------------------------------------------------------------------
  // Reading a survey back
  // ---------------------------------------------------------------------------

  datatype OpcionDto = OpcionDto(id: int, textoOpcion: String, valor: Option<String>, orden: int)

  datatype PreguntaDto = PreguntaDto(
    id: int,
    textoPregunta: String,
    tipoPregunta: String,
    obligatoria: bool,
    orden: int,
    opciones: seq<OpcionDto>)

  datatype EncuestaDto = EncuestaDto(
    id: int,
    titulo: String,
    descripcion: Option<String>,
    fechaCreacion: Timestamp,
    fechaLimite: Option<Timestamp>,
    nombreCreador: String,
    preguntas: seq<PreguntaDto>)

  function OptionOrden(o: Opcion): int { o.orden }
  function QuestionOrden(p: Pregunta): int { p.orden }

  function OpcionDtoOf(id: int, o: Opcion): OpcionDto
  {
    OpcionDto(id, o.textoOpcion, o.valor, o.orden)
  }

  function OptionOfQuestion(preguntaId: int): Opcion -> bool
  {
    (o: Opcion) => o.preguntaId == preguntaId
  }

  /** The options of a question, as the navigation collection loads them (in id order),
      sorted by `Orden` and projected. */
  function OptionDtos(s: Store, preguntaId: int): seq<OpcionDto>
  {
    Project(SortedRows(s.opciones, OptionOfQuestion(preguntaId), OptionOrden), OpcionDtoOf)
  }

  /** The options listed are sorted by `Orden` and are exactly the question's options. */
  lemma OptionDtosListed(s: Store, preguntaId: int)
    ensures var r := OptionDtos(s, preguntaId);
            forall i, j :: 0 <= i < j < |r| ==> r[i].orden <= r[j].orden
    ensures forall o :: o in OptionDtos(s, preguntaId) <==>
              o.id in s.opciones.rows && s.opciones.rows[o.id].preguntaId == preguntaId
              && o == OpcionDtoOf(o.id, s.opciones.rows[o.id])
  {
    var rows := SortedRows(s.opciones, OptionOfQuestion(preguntaId), OptionOrden);
    ProjectMembers(rows, OpcionDtoOf);
    assert forall id :: id in s.opciones.rows && s.opciones.rows[id].preguntaId == preguntaId ==>
             Entry(id, s.opciones.rows[id]) in rows;
  }

  function PreguntaDtoOf(s: Store, id: int, p: Pregunta): PreguntaDto
  {
    PreguntaDto(id, p.textoPregunta, p.tipoPregunta, p.obligatoria, p.orden, OptionDtos(s, id))
  }

  function QuestionView(s: Store): (int, Pregunta) -> PreguntaDto
  {
    (id: int, p: Pregunta) => PreguntaDtoOf(s, id, p)
  }

  function QuestionOfSurvey(encuestaId: int): Pregunta -> bool
  {
    (p: Pregunta) => p.encuestaId == encuestaId
  }

  /** The questions of a survey, loaded in id order, sorted by `Orden` and projected,
      each with its sorted options. */
  function QuestionDtos(s: Store, encuestaId: int): seq<PreguntaDto>
  {
    Project(SortedRows(s.preguntas, QuestionOfSurvey(encuestaId), QuestionOrden), QuestionView(s))
  }

  /** Every question listed is one of the survey's, shown as stored. */
  lemma QuestionDtosOfSurvey(s: Store, encuestaId: int)
    ensures forall q :: q in QuestionDtos(s, encuestaId) ==>
              q.id in s.preguntas.rows && s.preguntas.rows[q.id].encuestaId == encuestaId
              && q == PreguntaDtoOf(s, q.id, s.preguntas.rows[q.id])
  {
    ProjectMembers(SortedRows(s.preguntas, QuestionOfSurvey(encuestaId), QuestionOrden), QuestionView(s));
  }

  /** Every question of the survey is listed. */
  lemma QuestionDtosComplete(s: Store, encuestaId: int)
    ensures forall id :: id in s.preguntas.rows && s.preguntas.rows[id].encuestaId == encuestaId ==>
              PreguntaDtoOf(s, id, s.preguntas.rows[id]) in QuestionDtos(s, encuestaId)
  {
    var rows := SortedRows(s.preguntas, QuestionOfSurvey(encuestaId), QuestionOrden);
    ProjectMembers(rows, QuestionView(s));
    assert forall id :: id in s.preguntas.rows && s.preguntas.rows[id].encuestaId == encuestaId ==>
             Entry(id, s.preguntas.rows[id]) in rows;
  }

  /** `ObtenerEncuestaCompleta`: an active survey with its creator's name and its
      questions and options sorted by `Orden`; nothing for a missing or inactive one.
      The creator is loaded through a required foreign key, so it exists. */
  function ObtenerEncuestaCompleta(s: Store, encuestaId: int): (r: Option<EncuestaDto>)
    requires encuestaId in s.encuestas.rows && s.encuestas.rows[encuestaId].activa ==>
               s.encuestas.rows[encuestaId].usuarioAdminId in s.usuarios.rows
    ensures r.Some? <==> encuestaId in s.encuestas.rows && s.encuestas.rows[encuestaId].activa
    ensures r.Some? ==>
              var e := s.encuestas.rows[encuestaId];
              && r.value.id == encuestaId && r.value.titulo == e.titulo && r.value.descripcion == e.descripcion
              && r.value.fechaCreacion == e.fechaCreacion && r.value.fechaLimite == e.fechaLimite
              && r.value.nombreCreador == s.usuarios.rows[e.usuarioAdminId].nombre
              && r.value.preguntas == QuestionDtos(s, encuestaId)
    ensures r.Some? ==> forall i, j :: 0 <= i < j < |r.value.preguntas| ==> r.value.preguntas[i].orden <= r.value.preguntas[j].orden
  {
    if encuestaId in s.encuestas.rows && s.encuestas.rows[encuestaId].activa then
      var e := s.encuestas.rows[encuestaId];
      Some(EncuestaDto(encuestaId, e.titulo, e.descripcion, e.fechaCreacion, e.fechaLimite,
                       s.usuarios.rows[e.usuarioAdminId].nombre, QuestionDtos(s, encuestaId)))
    else None
  }

  /** Every question listed is one of `qs`, created under the id `first + k` for the
      `k`-th request, with that request's text and order. */
  predicate ListsRequested(dtos: seq<PreguntaDto>, first: int, qs: seq<CrearPreguntaRequest>)
  {
    forall q :: q in dtos ==>
      first <= q.id < first + |qs| && Some(q.textoPregunta) == qs[q.id - first].textoPregunta
      && q.orden == qs[q.id - first].orden
  }

  /** Every row of `after` that `before` lacks is listed. */
  predicate ListsAdded(dtos: seq<PreguntaDto>, after: Table<Pregunta>, before: Table<Pregunta>)
  {
    forall p :: p in after.rows && p !in before.rows ==> exists q :: q in dtos && q.id == p
  }

  /** A survey just created reads back: active, with the requested title and its
      creator's name, listing exactly the questions the creation added, each with the
      requested text and order. */
  lemma CreatedSurveyReadsBack(s: Store, req: CrearEncuestaRequest, adminId: int, now: Timestamp)
    requires Consistent(s) && CrearEncuesta(s, req, adminId, now).Success?
    ensures var (s', id) := CrearEncuesta(s, req, adminId, now).value;
            var dto := ObtenerEncuestaCompleta(s', id);
            && dto.Some? && dto.value.titulo == req.titulo.value && dto.value.nombreCreador == s.usuarios.rows[adminId].nombre
            && ListsRequested(dto.value.preguntas, s.preguntas.next, req.preguntas.value)
            && ListsAdded(dto.value.preguntas, s'.preguntas, s.preguntas)
  {
    var (s', id) := CrearEncuesta(s, req, adminId, now).value;
    var qs := req.preguntas.value;
    assert forall i :: 0 <= i < |qs| ==> qs[i].textoPregunta.Some? by {
      forall i | 0 <= i < |qs| ensures qs[i].textoPregunta.Some? {
        assert QuestionSaves(qs[i]);
      }
    }
    NoOldQuestionOfNewSurvey(s, id);
    BatchQuestionsAre(s.preguntas, id, qs);
    BatchReadBack(s', id, s.preguntas, qs);
  }

  /** The questions of survey `id` in table `t` are exactly the rows of `qs`, under
      the ids `first`, `first + 1`, ... */
  predicate QuestionsAre(t: Table<Pregunta>, id: int, first: int, qs: seq<CrearPreguntaRequest>)
  {
    && (forall p :: p in t.rows && t.rows[p].encuestaId == id ==>
          first <= p < first + |qs| && t.rows[p] == QuestionRow(id, qs[p - first]))
    && (forall p :: first <= p < first + |qs| ==> p in t.rows && t.rows[p] == QuestionRow(id, qs[p - first]))
  }

  /** A batch of questions added to a table none of whose rows named the survey are
      the survey's questions, and the only rows added. */
  lemma BatchQuestionsAre(before: Table<Pregunta>, id: int, qs: seq<CrearPreguntaRequest>)
    requires forall p :: p in before.rows ==> before.rows[p].encuestaId != id
    ensures QuestionsAre(AddAll(before, QuestionRows(id, qs)), id, before.next, qs)
    ensures forall p :: p in AddAll(before, QuestionRows(id, qs)).rows && p !in before.rows ==>
              before.next <= p < before.next + |qs|
  {
    BatchRowsOfSurvey(before, id, qs);
    BatchRowsPresent(before, id, qs);
  }

  /** The rows naming the survey after the batch are the batch's. */
  lemma BatchRowsOfSurvey(before: Table<Pregunta>, id: int, qs: seq<CrearPreguntaRequest>)
    requires forall p :: p in before.rows ==> before.rows[p].encuestaId != id
    ensures var t := AddAll(before, QuestionRows(id, qs));
            forall p :: p in t.rows && t.rows[p].encuestaId == id ==>
              before.next <= p < before.next + |qs| && t.rows[p] == QuestionRow(id, qs[p - before.next])
  {
    var t := AddAll(before, QuestionRows(id, qs));
    forall p | p in t.rows && t.rows[p].encuestaId == id
      ensures before.next <= p < before.next + |qs| && t.rows[p] == QuestionRow(id, qs[p - before.next])
    {
      AddAllAt(before, QuestionRows(id, qs), p);
    }
  }

  /** Every row of the batch is present, and nothing else was added. */
  lemma BatchRowsPresent(before: Table<Pregunta>, id: int, qs: seq<CrearPreguntaRequest>)
    ensures var t := AddAll(before, QuestionRows(id, qs));
            && (forall p :: before.next <= p < before.next + |qs| ==> p in t.rows && t.rows[p] == QuestionRow(id, qs[p - before.next]))
            && (forall p :: p in t.rows && p !in before.rows ==> before.next <= p < before.next + |qs|)
  {
    var t := AddAll(before, QuestionRows(id, qs));
    forall p | before.next <= p < before.next + |qs|
      ensures p in t.rows && t.rows[p] == QuestionRow(id, qs[p - before.next])
    {
      AddAllAt(before, QuestionRows(id, qs), p);
    }
  }

  /** What a survey whose questions are a batch reads back with: each listed question
      is one of the batch, with its text and order, and each of the batch is listed. */
  lemma BatchReadBack(s: Store, id: int, before: Table<Pregunta>, qs: seq<CrearPreguntaRequest>)
    requires QuestionsAre(s.preguntas, id, before.next, qs)
    requires forall p :: p in s.preguntas.rows && p !in before.rows ==> before.next <= p < before.next + |qs|
    requires forall i :: 0 <= i < |qs| ==> qs[i].textoPregunta.Some?
    ensures ListsRequested(QuestionDtos(s, id), before.next, qs)
    ensures ListsAdded(QuestionDtos(s, id), s.preguntas, before)
  {
    BatchListsRequested(s, id, before.next, qs);
    BatchListsAdded(s, id, before, qs);
  }

  lemma BatchListsRequested(s: Store, id: int, first: int, qs: seq<CrearPreguntaRequest>)
    requires QuestionsAre(s.preguntas, id, first, qs)
    requires forall i :: 0 <= i < |qs| ==> qs[i].textoPregunta.Some?
    ensures ListsRequested(QuestionDtos(s, id), first, qs)
  {
    QuestionDtosOfSurvey(s, id);
  }

  lemma BatchListsAdded(s: Store, id: int, before: Table<Pregunta>, qs: seq<CrearPreguntaRequest>)
    requires QuestionsAre(s.preguntas, id, before.next, qs)
    requires forall p :: p in s.preguntas.rows && p !in before.rows ==> before.next <= p < before.next + |qs|
    ensures ListsAdded(QuestionDtos(s, id), s.preguntas, before)
  {
    QuestionDtosComplete(s, id);
    forall p | p in s.preguntas.rows && p !in before.rows ensures exists q :: q in QuestionDtos(s, id) && q.id == p {
      assert PreguntaDtoOf(s, p, s.preguntas.rows[p]) in QuestionDtos(s, id);
    }
  }

  /** In a consistent store no question names a survey id not yet handed out. */
  lemma NoOldQuestionOfNewSurvey(s: Store, id: int)
    requires Consistent(s) && id >= s.encuestas.next
    ensures forall p :: p in s.preguntas.rows ==> s.preguntas.rows[p].encuestaId != id
  {
    forall p | p in s.preguntas.rows ensures s.preguntas.rows[p].encuestaId != id {
      assert Resolves(SurveyOfQuestion(s.preguntas.rows[p]), s.encuestas.rows.Keys);
    }
  }
}
