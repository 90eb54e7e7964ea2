/**
  The secure event log exercise: an `Evento` is a typed, non-blank message
  stamped with the time it was created, and `RegistradorSeguro` is an
  append-only list of events that can be counted, copied, filtered by type
  and cleared.
 */
module Registro {
  import opened Comun
  import opened Texto

  /** The event types `Evento` accepts; the comparison is case-sensitive. */
  const TIPOS_VALIDOS: set<string> := {"LOGIN", "LOGOUT", "ERROR", "ALERTA"}

  /** The three private attributes of an event, read through `get_tipo`, `get_mensaje` and `get_timestamp`. */
  datatype DatosEvento = DatosEvento(tipo: string, mensaje: string, marcaTiempo: real)

  /** An event as the constructor lets it exist: a known type and a message with a visible character. */
  type Evento = e: DatosEvento | e.tipo in TIPOS_VALIDOS && HayVisibleDesde(e.mensaje, 0)
    witness DatosEvento("LOGIN", "x", 0.0)

  /**
    `Evento(tipo, mensaje)`, created at time `ahora`: raises ValueError for a
    type outside TIPOS_VALIDOS, or for a message that `strip()` leaves empty.
   */
  function CrearEvento(tipo: string, mensaje: string, ahora: real): (r: Result<Evento>)
    ensures r.Ok? <==> tipo in TIPOS_VALIDOS && !EnBlanco(mensaje)
    ensures r.Err? ==> r.error == ValueError
    ensures r.Ok? ==> r.value.tipo == tipo && r.value.mensaje == mensaje && r.value.marcaTiempo == ahora
  {
    RecortarVacioSiiEnBlanco(mensaje);
    HayVisibleSiiNoEnBlanco(mensaje, 0);
    assert mensaje[0..] == mensaje;
    if tipo !in TIPOS_VALIDOS then Err(ValueError)
    else if Recortar(mensaje) == [] then Err(ValueError)
    else Ok(DatosEvento(tipo, mensaje, ahora))
  }

  /** What `registrar` may be handed: an event, or anything else (a string, None, a number, a dict). */
  datatype Valor = ValorEvento(evento: Evento) | OtroValor

  /** The part of one event that a filter on `tipo` keeps. */
  function Conservado(e: Evento, tipo: string): seq<Evento>
  {
    if e.tipo == tipo then [e] else []
  }

  /** The events of `eventos` whose type is `tipo`, in the order they were registered. */
  function Filtrar(eventos: seq<Evento>, tipo: string): seq<Evento>
  {
    if eventos == [] then []
    else
      var ultimo := eventos[|eventos| - 1];
      Filtrar(eventos[..|eventos| - 1], tipo) + Conservado(ultimo, tipo)
  }

  /** An event is kept exactly when it was registered and has the requested type. */
  lemma {:induction false} FiltrarMiembros(eventos: seq<Evento>, tipo: string)
    ensures forall e :: e in Filtrar(eventos, tipo) <==> e in eventos && e.tipo == tipo
  {
    if eventos != [] {
      var n := |eventos| - 1;
      FiltrarMiembros(eventos[..n], tipo);
      assert eventos == eventos[..n] + [eventos[n]];
    }
  }

  /** Filtering a concatenation filters each part and keeps them in order. */
  lemma {:induction false} FiltrarConcat(a: seq<Evento>, b: seq<Evento>, tipo: string)
    ensures Filtrar(a + b, tipo) == Filtrar(a, tipo) + Filtrar(b, tipo)
    decreases |b|
  {
    if b == [] {
      assert a + b == a;
    } else {
      var n := |b| - 1;
      assert (a + b)[..|a + b| - 1] == a + b[..n];
      FiltrarConcat(a, b[..n], tipo);
    }
  }

  /** Filtering never keeps more events than were registered. */
  lemma {:induction false} FiltrarAcotado(eventos: seq<Evento>, tipo: string)
    ensures |Filtrar(eventos, tipo)| <= |eventos|
  {
    if eventos != [] {
      FiltrarAcotado(eventos[..|eventos| - 1], tipo);
    }
  }

  /** Every event has one of the four valid types, so the four per-type counts add up to the whole log. */
  lemma {:induction false} CantidadesPorTipoSuman(eventos: seq<Evento>)
    ensures |Filtrar(eventos, "LOGIN")| + |Filtrar(eventos, "LOGOUT")| +
            |Filtrar(eventos, "ERROR")| + |Filtrar(eventos, "ALERTA")| == |eventos|
  {
    if eventos != [] {
      CantidadesPorTipoSuman(eventos[..|eventos| - 1]);
      assert eventos[|eventos| - 1].tipo in TIPOS_VALIDOS;
    }
  }

  /** Registering one more event extends the filtered list by that event when it has the requested type, and by nothing otherwise. */
  lemma FiltrarAgregado(eventos: seq<Evento>, e: Evento, tipo: string)
    ensures Filtrar(eventos + [e], tipo) == Filtrar(eventos, tipo) + Conservado(e, tipo)
  {
    assert (eventos + [e])[..|eventos|] == eventos;
  }

  /** Five events in a row, filtered one at a time. */
  lemma FiltrarCinco(eventos: seq<Evento>, tipo: string)
    requires |eventos| == 5
    ensures Filtrar(eventos, tipo) ==
      Conservado(eventos[0], tipo) + Conservado(eventos[1], tipo) + Conservado(eventos[2], tipo) +
      Conservado(eventos[3], tipo) + Conservado(eventos[4], tipo)
  {
    forall k | 0 <= k < 5
      ensures Filtrar(eventos[..k + 1], tipo) == Filtrar(eventos[..k], tipo) + Conservado(eventos[k], tipo)
    {
      assert eventos[..k + 1] == eventos[..k] + [eventos[k]];
      FiltrarAgregado(eventos[..k], eventos[k], tipo);
    }
    assert eventos[..0] == [] && eventos[..5] == eventos;
  }

  /** A type outside TIPOS_VALIDOS (a lower-case one, say) never matches any event. */
  lemma {:induction false} FiltrarTipoInvalido(eventos: seq<Evento>, tipo: string)
    requires tipo !in TIPOS_VALIDOS
    ensures Filtrar(eventos, tipo) == []
  {
    if eventos != [] {
      FiltrarTipoInvalido(eventos[..|eventos| - 1], tipo);
    }
  }

  /** `RegistradorSeguro`: the log, an event list that only grows until it is cleared. */
  class RegistradorSeguro {
    var eventos: seq<Evento>

    /** A new log is empty. */
    constructor()
      ensures eventos == []
    {
      eventos := [];
    }

    /** `registrar`: appends an event and answers true; anything else is refused with false and changes nothing. */
    method Registrar(x: Valor) returns (ok: bool)
      modifies this
      ensures ok <==> x.ValorEvento?
      ensures ok ==> eventos == old(eventos) + [x.evento]
      ensures !ok ==> eventos == old(eventos)
    {
      match x
      case ValorEvento(evento) =>
        eventos := eventos + [evento];
        ok := true;
      case OtroValor =>
        ok := false;
    }

    /** `cantidad_eventos`. */
    method CantidadEventos() returns (n: nat)
      ensures n == |eventos|
    {
      n := |eventos|;
    }

    /** `obtener_eventos`: the events in registration order, as a list of the caller's own. */
    method ObtenerEventos() returns (copia: seq<Evento>)
      ensures copia == eventos
    {
      copia := eventos;
    }

    /** `filtrar_por_tipo`: a pass over the log keeping the events of type `tipo`. */
    method FiltrarPorTipo(tipo: string) returns (r: seq<Evento>)
      ensures r == Filtrar(eventos, tipo)
      ensures forall e :: e in r <==> e in eventos && e.tipo == tipo
    {
      r := [];
      var i := 0;
      while i < |eventos|
        invariant 0 <= i <= |eventos|
        invariant r == Filtrar(eventos[..i], tipo)
      {
        if eventos[i].tipo == tipo {
          r := r + [eventos[i]];
        }
        assert eventos[..i + 1][..i] == eventos[..i];
        i := i + 1;
      }
      assert eventos[..i] == eventos;
      FiltrarMiembros(eventos, tipo);
    }

    /** `cantidad_por_tipo`: counts the events of type `tipo` without building the list. */
    method CantidadPorTipo(tipo: string) returns (n: nat)
      ensures n == |Filtrar(eventos, tipo)|
    {
      n := 0;
      var i := 0;
      while i < |eventos|
        invariant 0 <= i <= |eventos|
        invariant n == |Filtrar(eventos[..i], tipo)|
      {
        if eventos[i].tipo == tipo {
          n := n + 1;
        }
        assert eventos[..i + 1][..i] == eventos[..i];
        i := i + 1;
      }
      assert eventos[..i] == eventos;
    }

    /** `ultimo_evento`: None on an empty log, otherwise the most recently registered event. */
    method UltimoEvento() returns (r: Option<Evento>)
      ensures eventos == [] <==> r == None
      ensures r.Some? ==> r.value == eventos[|eventos| - 1]
    {
      if |eventos| == 0 {
        r := None;
      } else {
        r := Some(eventos[|eventos| - 1]);
      }
    }

    /** `limpiar`: empties the log. */
    method Limpiar()
      modifies this
      ensures eventos == []
    {
      eventos := [];
    }
  }

  // ---------------------------------------------------------------- the cases the exercise checks

  /** The event the constructor builds from a valid type and a message that starts with a visible character. */
  function Nuevo(tipo: string, mensaje: string, ahora: real): (e: Evento)
    requires tipo in TIPOS_VALIDOS && mensaje != [] && !EsEspacio(mensaje[0])
    ensures e.tipo == tipo && e.mensaje == mensaje && e.marcaTiempo == ahora
  {
    CrearEvento(tipo, mensaje, ahora).value
  }

  /** Each of the four types is accepted with a visible message, and the getters give back what was passed. */
  lemma CasosEventoValido(ahora: real)
    ensures CrearEvento("LOGIN", "Inicio de sesión", ahora) == Ok(DatosEvento("LOGIN", "Inicio de sesión", ahora))
    ensures CrearEvento("LOGOUT", "Cierre de sesión", ahora).Ok?
    ensures CrearEvento("ERROR", "Fallo en autenticación", ahora).Ok?
    ensures CrearEvento("ALERTA", "Actividad sospechosa", ahora).Ok?
    ensures forall tipo :: tipo in TIPOS_VALIDOS ==>
      CrearEvento(tipo, "mensaje de prueba", ahora).Ok? && CrearEvento(tipo, "mensaje de prueba", ahora).value.tipo == tipo
  {
    assert !EsEspacio("Inicio de sesión"[0]);
    assert !EsEspacio("Cierre de sesión"[0]);
    assert !EsEspacio("Fallo en autenticación"[0]);
    assert !EsEspacio("Actividad sospechosa"[0]);
    assert !EsEspacio("mensaje de prueba"[0]);
  }

  /** An unknown, empty or lower-case type raises ValueError. */
  lemma CasosTipoInvalido(tipo: string, ahora: real)
    requires tipo == "INVALIDO" || tipo == "" || tipo == "login"
    ensures CrearEvento(tipo, "mensaje", ahora) == Err(ValueError)
  {
    assert tipo !in TIPOS_VALIDOS by {
      assert tipo == [] || tipo[0] == 'I' || tipo[0] == 'l';
      assert tipo != "LOGIN" && tipo != "LOGOUT" && tipo != "ERROR" && tipo != "ALERTA";
    }
  }

  /** An empty message, or one of spaces or tabs only, raises ValueError. */
  lemma CasosMensajeEnBlanco(mensaje: string, ahora: real)
    requires mensaje == "" || mensaje == "   " || mensaje == "\t\t"
    ensures CrearEvento("LOGIN", mensaje, ahora) == Err(ValueError)
  {
    assert EnBlanco(mensaje);
  }

  /** Registering three events counts three; anything that is not an event is refused. */
  method CasoRegistrar(ahora: real) returns (n: nat, aceptadoOtro: bool)
    ensures n == 3 && !aceptadoOtro
  {
    var reg := new RegistradorSeguro();
    aceptadoOtro := reg.Registrar(OtroValor);
    var ok1 := reg.Registrar(ValorEvento(Nuevo("LOGIN", "e1", ahora)));
    var ok2 := reg.Registrar(ValorEvento(Nuevo("ERROR", "e2", ahora)));
    var ok3 := reg.Registrar(ValorEvento(Nuevo("ALERTA", "e3", ahora)));
    n := reg.CantidadEventos();
  }

  /**
    `obtener_eventos` hands out the two events as a `seq`, which is a value and cannot alias the log:
    rebinding the local copy to `[]` leaves the log with its two events.
   */
  method CasoObtenerCopia(ahora: real) returns (antes: nat, despues: nat)
    ensures antes == 2 && despues == 2
  {
    var reg := new RegistradorSeguro();
    var ok1 := reg.Registrar(ValorEvento(Nuevo("LOGIN", "evento 1", ahora)));
    var ok2 := reg.Registrar(ValorEvento(Nuevo("ERROR", "evento 2", ahora)));
    var copia := reg.ObtenerEventos();
    antes := |copia|;
    copia := [];
    despues := reg.CantidadEventos();
  }

  /** The per-type filters of a log holding LOGIN, LOGIN, ERROR, ALERTA and LOGOUT events, in that order. */
  lemma PorTipoEnElCaso(eventos: seq<Evento>)
    requires |eventos| == 5
    requires eventos[0].tipo == "LOGIN" && eventos[1].tipo == "LOGIN" && eventos[2].tipo == "ERROR"
    requires eventos[3].tipo == "ALERTA" && eventos[4].tipo == "LOGOUT"
    ensures |Filtrar(eventos, "LOGIN")| == 2 && |Filtrar(eventos, "ERROR")| == 1
    ensures |Filtrar(eventos, "LOGOUT")| == 1 && Filtrar(eventos, "ALERTA") == [eventos[3]]
  {
    assert "LOGIN"[0] != "ERROR"[0] && "LOGIN"[0] != "ALERTA"[0] && "ERROR"[0] != "ALERTA"[0];
    assert |"LOGOUT"| == 6 && "LOGOUT"[0] != "ERROR"[0] && "LOGOUT"[0] != "ALERTA"[0];
    FiltrarCinco(eventos, "LOGIN");
    FiltrarCinco(eventos, "ERROR");
    FiltrarCinco(eventos, "LOGOUT");
    FiltrarCinco(eventos, "ALERTA");
  }

  /** Five events of four types: two LOGIN, one ERROR, one LOGOUT, and the ALERTA one is "alerta 1". */
  method CasoFiltrar(ahora: real) returns (login: nat, error: nat, logout: nat, alertas: seq<Evento>)
    ensures login == 2 && error == 1 && logout == 1
    ensures |alertas| == 1 && alertas[0].mensaje == "alerta 1"
  {
    var reg := Registrados(EventosDelCaso(ahora));
    PorTipoEnElCaso(reg.eventos);
    var logins := reg.FiltrarPorTipo("LOGIN");
    login := |logins|;
    error := reg.CantidadPorTipo("ERROR");
    logout := reg.CantidadPorTipo("LOGOUT");
    alertas := reg.FiltrarPorTipo("ALERTA");
  }

  /** A new log into which `eventos` have been registered one by one. */
  method Registrados(eventos: seq<Evento>) returns (reg: RegistradorSeguro)
    ensures fresh(reg) && reg.eventos == eventos
  {
    reg := new RegistradorSeguro();
    for i := 0 to |eventos|
      invariant reg.eventos == eventos[..i]
    {
      var ok := reg.Registrar(ValorEvento(eventos[i]));
      assert eventos[..i + 1] == eventos[..i] + [eventos[i]];
    }
    assert eventos[..|eventos|] == eventos;
  }

  /** The five events the filtering cases register. */
  function EventosDelCaso(ahora: real): (eventos: seq<Evento>)
    ensures |eventos| == 5
    ensures eventos[0].tipo == "LOGIN" && eventos[1].tipo == "LOGIN" && eventos[2].tipo == "ERROR"
    ensures eventos[3].tipo == "ALERTA" && eventos[4].tipo == "LOGOUT"
    ensures eventos[3].mensaje == "alerta 1"
  {
    [Nuevo("LOGIN", "login 1", ahora), Nuevo("LOGIN", "login 2", ahora), Nuevo("ERROR", "error 1", ahora),
     Nuevo("ALERTA", "alerta 1", ahora), Nuevo("LOGOUT", "logout 1", ahora)]
  }

  /** A log holding only a LOGIN event has no ERROR events. */
  method CasoFiltrarSinEventos(ahora: real) returns (errores: seq<Evento>)
    ensures errores == []
  {
    var reg := new RegistradorSeguro();
    var ok := reg.Registrar(ValorEvento(Nuevo("LOGIN", "solo login", ahora)));
    errores := reg.FiltrarPorTipo("ERROR");
  }

  /** The last event is the one registered last; after `limpiar` the log is empty and has no last event. */
  method CasoUltimoYLimpiar(ahora: real) returns (vacio: Option<Evento>, ultimo: Option<Evento>, n: nat, tras: Option<Evento>)
    ensures vacio == None
    ensures ultimo.Some? && ultimo.value.mensaje == "segundo" && ultimo.value.tipo == "ERROR"
    ensures n == 0 && tras == None
  {
    var reg := new RegistradorSeguro();
    vacio := reg.UltimoEvento();
    var ok1 := reg.Registrar(ValorEvento(Nuevo("LOGIN", "primero", ahora)));
    var ok2 := reg.Registrar(ValorEvento(Nuevo("ERROR", "segundo", ahora)));
    ultimo := reg.UltimoEvento();
    reg.Limpiar();
    n := reg.CantidadEventos();
    tras := reg.UltimoEvento();
  }
}
