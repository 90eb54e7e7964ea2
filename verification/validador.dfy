/**
  The aggregator of the form-validator exercise: `Validador` keeps the rules
  in the order they were registered and, on `validar`, runs every one of
  them, collecting the message of each rule that fails.
 */
module Validadores {
  import opened Comun
  import opened Texto
  import opened Reglas

  /** The `{"es_valido": ..., "errores": [...]}` dictionary `validar` returns. */
  datatype ResultadoValidacion = ResultadoValidacion(esValido: bool, errores: seq<string>)

  /** What `agregar_regla` may be handed: a rule, or anything else (a string, None). */
  datatype Argumento = ArgRegla(regla: Regla) | ArgOtro

  /** The messages of the failing rules of `reglas`, in registration order. */
  function Errores(reglas: seq<Regla>, v: string): seq<string>
  {
    if reglas == [] then []
    else
      var ultima := reglas[|reglas| - 1];
      Errores(reglas[..|reglas| - 1], v) + (if Validar(ultima, v) then [] else [MensajeError(ultima)])
  }

  /** The result `validar` builds from the collected messages. */
  function Evaluar(reglas: seq<Regla>, v: string): (r: ResultadoValidacion)
    ensures r.errores == Errores(reglas, v)
    ensures r.esValido <==> r.errores == []
  {
    var errores := Errores(reglas, v);
    ResultadoValidacion(errores == [], errores)
  }

  /** The positions of the rules that reject `v`, in increasing order. */
  ghost function IndicesFallidos(reglas: seq<Regla>, v: string): seq<nat>
  {
    if reglas == [] then []
    else
      var n := |reglas| - 1;
      IndicesFallidos(reglas[..n], v) + (if Validar(reglas[n], v) then [] else [n])
  }

  /** The failing positions are in range and strictly increasing. */
  lemma {:induction false} IndicesFallidosCrecientes(reglas: seq<Regla>, v: string)
    ensures forall k :: 0 <= k < |IndicesFallidos(reglas, v)| ==> IndicesFallidos(reglas, v)[k] < |reglas|
    ensures forall k, l :: 0 <= k < l < |IndicesFallidos(reglas, v)| ==>
      IndicesFallidos(reglas, v)[k] < IndicesFallidos(reglas, v)[l]
  {
    if reglas != [] {
      var n := |reglas| - 1;
      IndicesFallidosCrecientes(reglas[..n], v);
    }
  }

  /** A position is listed exactly when its rule rejects `v`. */
  lemma {:induction false} IndicesFallidosExactos(reglas: seq<Regla>, v: string)
    ensures forall i :: 0 <= i < |reglas| ==> (!Validar(reglas[i], v) <==> i in IndicesFallidos(reglas, v))
  {
    if reglas != [] {
      var n := |reglas| - 1;
      var previas := reglas[..n];
      IndicesFallidosExactos(previas, v);
      IndicesFallidosCrecientes(previas, v);
      var ant, idx := IndicesFallidos(previas, v), IndicesFallidos(reglas, v);
      forall i | 0 <= i < |reglas|
        ensures !Validar(reglas[i], v) <==> i in idx
      {
        if i < n {
          assert previas[i] == reglas[i];
          assert n !in ant;
          assert i in idx <==> i in ant;
        } else if !Validar(reglas[n], v) {
          assert idx[|ant|] == n;
        }
      }
    }
  }

  /**
    The error list holds one message per failing rule, in registration order,
    and nothing else: its k-th entry is the message of the k-th failing rule.
   */
  lemma {:induction false} ErroresSonLasFallidas(reglas: seq<Regla>, v: string)
    ensures |Errores(reglas, v)| == |IndicesFallidos(reglas, v)|
    ensures forall k :: 0 <= k < |IndicesFallidos(reglas, v)| ==>
      IndicesFallidos(reglas, v)[k] < |reglas| &&
      Errores(reglas, v)[k] == MensajeError(reglas[IndicesFallidos(reglas, v)[k]])
  {
    if reglas != [] {
      var n := |reglas| - 1;
      var previas := reglas[..n];
      ErroresSonLasFallidas(previas, v);
      var ant, idx, e := IndicesFallidos(previas, v), IndicesFallidos(reglas, v), Errores(reglas, v);
      forall k | 0 <= k < |idx|
        ensures idx[k] < |reglas| && e[k] == MensajeError(reglas[idx[k]])
      {
        if k < |ant| {
          assert idx[k] == ant[k] && e[k] == Errores(previas, v)[k] && previas[ant[k]] == reglas[ant[k]];
        }
      }
    }
  }

  /** Running the rules of a concatenation is running each part in turn. */
  lemma {:induction false} ErroresConcat(a: seq<Regla>, b: seq<Regla>, v: string)
    ensures Errores(a + b, v) == Errores(a, v) + Errores(b, v)
    decreases |b|
  {
    if b == [] {
      assert a + b == a;
    } else {
      var n := |b| - 1;
      assert (a + b)[..|a + b| - 1] == a + b[..n];
      ErroresConcat(a, b[..n], v);
    }
  }

  /** There is no error exactly when every rule accepts the value; with no rules, every value is valid. */
  lemma {:induction false} ErroresVaciosSiiTodasPasan(reglas: seq<Regla>, v: string)
    ensures Errores(reglas, v) == [] <==> forall i :: 0 <= i < |reglas| ==> Validar(reglas[i], v)
  {
    ErroresSonLasFallidas(reglas, v);
    IndicesFallidosExactos(reglas, v);
    var idx := IndicesFallidos(reglas, v);
    if idx != [] {
      assert idx[0] in idx;
    }
  }

  /** There are never more errors than rules. */
  lemma {:induction false} ErroresAcotados(reglas: seq<Regla>, v: string)
    ensures |Errores(reglas, v)| <= |reglas|
  {
    if reglas != [] {
      ErroresAcotados(reglas[..|reglas| - 1], v);
    }
  }

  /** Three rules give their verdicts in registration order. */
  lemma ErroresDeTres(a: Regla, b: Regla, c: Regla, v: string)
    ensures Errores([a, b, c], v) == Errores([a], v) + Errores([b], v) + Errores([c], v)
  {
    ErroresConcat([a], [b], v);
    ErroresConcat([a, b], [c], v);
    assert [a] + [b] == [a, b];
    assert [a, b] + [c] == [a, b, c];
  }

  /** One rule alone: no error if it passes, its own message if it fails. */
  lemma ErroresDeUna(a: Regla, v: string)
    ensures Errores([a], v) == if Validar(a, v) then [] else [MensajeError(a)]
  {
    assert [a][..0] == [];
  }

  /** `Validador`: an ordered list of rules that grows by `agregar_regla`. */
  class Validador {
    var reglas: seq<Regla>

    /** A validator starts with no rules. */
    constructor()
      ensures reglas == []
    {
      reglas := [];
    }

    /** `agregar_regla`: appends a rule; anything that is not a rule raises TypeError and changes nothing. */
    method AgregarRegla(x: Argumento) returns (excepcion: Option<Excepcion>)
      modifies this
      ensures x.ArgRegla? ==> excepcion == None && reglas == old(reglas) + [x.regla]
      ensures x.ArgOtro? ==> excepcion == Some(TypeError) && reglas == old(reglas)
    {
      match x
      case ArgRegla(regla) =>
        reglas := reglas + [regla];
        excepcion := None;
      case ArgOtro =>
        excepcion := Some(TypeError);
    }

    /** `cantidad_reglas`. */
    method CantidadReglas() returns (n: nat)
      ensures n == |reglas|
    {
      n := |reglas|;
    }

    /** `validar`: runs every rule in order, collecting the messages of those that fail. */
    method Validar(v: string) returns (r: ResultadoValidacion)
      ensures r == Evaluar(reglas, v)
      ensures r.esValido <==> forall i :: 0 <= i < |reglas| ==> Reglas.Validar(reglas[i], v)
    {
      var errores: seq<string> := [];
      var i := 0;
      while i < |reglas|
        invariant 0 <= i <= |reglas|
        invariant errores == Errores(reglas[..i], v)
      {
        var regla := reglas[i];
        if !Reglas.Validar(regla, v) {
          errores := errores + [MensajeError(regla)];
        }
        assert reglas[..i + 1][..i] == reglas[..i];
        i := i + 1;
      }
      assert reglas[..i] == reglas;
      r := ResultadoValidacion(errores == [], errores);
      ErroresVaciosSiiTodasPasan(reglas, v);
    }
  }

  // ---------------------------------------------------------------- the cases the exercise checks

  /** The three rules of the multiple-rule cases, with the given minimum length. */
  function Tres(minimo: nat): (reglas: seq<Regla>)
    requires minimo <= 50
    ensures |reglas| == 3 && reglas[0] == ReglaLongitud(minimo, 50)
  {
    [ReglaLongitud(minimo, 50), ReglaNoPalabrasProhibidas, ReglaNoEspacios]
  }

  /** The three-rule validator reports length, banned words and whitespace, in that order. */
  lemma ErroresDeLasTres(minimo: nat, v: string)
    requires minimo <= 50
    ensures Evaluar(Tres(minimo), v).errores ==
      (if minimo <= |v| <= 50 then [] else [MensajeError(ReglaLongitud(minimo, 50))]) +
      (if Validar(ReglaNoPalabrasProhibidas, v) then [] else [MENSAJE_PALABRAS_PROHIBIDAS]) +
      (if Validar(ReglaNoEspacios, v) then [] else [MENSAJE_NO_ESPACIOS])
  {
    ErroresDeTres(ReglaLongitud(minimo, 50), ReglaNoPalabrasProhibidas, ReglaNoEspacios, v);
    ErroresDeUna(ReglaLongitud(minimo, 50), v);
    ErroresDeUna(ReglaNoPalabrasProhibidas, v);
    ErroresDeUna(ReglaNoEspacios, v);
  }

  lemma PasaHolaAmigo(v: string)
    requires v == "holaamigo"
    ensures Validar(ReglaNoPalabrasProhibidas, v) && Validar(ReglaNoEspacios, v)
  {
    assert SinMayusculasDesde(v, 0) by { assert SinMayusculasDesde("holaamigo", 0); }
    assert 'd' !in v && 'r' !in v && 'c' !in v && 's' !in v;
    AusenteNoContiene(v, "admin", 1);
    AusenteNoContiene(v, "root", 0);
    AusenteNoContiene(v, "hack", 2);
    AusenteNoContiene(v, "drop", 0);
    AusenteNoContiene(v, "select", 0);
    AusenteNoContiene(v, "delete", 0);
    PalabrasEnMinusculas(v);
    assert !ContieneEspacio(v);
  }

  lemma PasaAB(v: string)
    requires v == "ab" || v == "a "
    ensures Validar(ReglaNoPalabrasProhibidas, v)
  {
    assert SinMayusculasDesde(v, 0);
    assert 'd' !in v && 'r' !in v && 'h' !in v && 's' !in v;
    AusenteNoContiene(v, "admin", 1);
    AusenteNoContiene(v, "root", 0);
    AusenteNoContiene(v, "hack", 0);
    AusenteNoContiene(v, "drop", 0);
    AusenteNoContiene(v, "select", 0);
    AusenteNoContiene(v, "delete", 0);
    PalabrasEnMinusculas(v);
  }

  /** "holaamigo" passes all three rules. */
  lemma CasoTodasPasan()
    ensures Evaluar(Tres(3), "holaamigo") == ResultadoValidacion(true, [])
  {
    PasaHolaAmigo("holaamigo");
    ErroresDeLasTres(3, "holaamigo");
  }

  /** "ab" fails only the length rule. */
  lemma CasoUnaFalla()
    ensures Evaluar(Tres(3), "ab") == ResultadoValidacion(false, [MensajeError(ReglaLongitud(3, 50))])
  {
    PasaAB("ab");
    ErroresDeLasTres(3, "ab");
  }

  /** "a " fails the length rule and the whitespace rule, in that order. */
  lemma CasoDosFallan()
    ensures Evaluar(Tres(3), "a ") ==
      ResultadoValidacion(false, [MensajeError(ReglaLongitud(3, 50)), MENSAJE_NO_ESPACIOS])
  {
    PasaAB("a ");
    ErroresDeLasTres(3, "a ");
  }

  /** "root " with a minimum of 7 fails all three rules, in registration order. */
  lemma CasoTodasFallan(v: string)
    requires v == "root "
    ensures Evaluar(Tres(7), v) == ResultadoValidacion(false,
      [MensajeError(ReglaLongitud(7, 50)), MENSAJE_PALABRAS_PROHIBIDAS, MENSAJE_NO_ESPACIOS])
  {
    assert !Validar(ReglaNoPalabrasProhibidas, v) by {
      assert v == "" + "root" + " ";
      assert Minusculas("root") == "root";
      PalabraEmbebidaFalla("", "root", " ");
    }
    assert !Validar(ReglaNoEspacios, v) && !Validar(ReglaLongitud(7, 50), v) by {
      assert |v| == 5 && EsEspacio(v[4]);
    }
    ErroresDeLasTres(7, v);
  }

  /** "eseadmin" has the right length and no space, so its only error is the banned-word one. */
  lemma CasoPalabraProhibida(v: string)
    requires v == "eseadmin"
    ensures Evaluar(Tres(3), v) == ResultadoValidacion(false, [MENSAJE_PALABRAS_PROHIBIDAS])
    ensures EsSubcadena("palabras prohibidas", Evaluar(Tres(3), v).errores[0])
  {
    VeredictosEseAdmin(v);
    ErroresDeLasTres(3, v);
    MensajesMencionanSuMotivo();
  }

  lemma VeredictosEseAdmin(v: string)
    requires v == "eseadmin"
    ensures !Validar(ReglaNoPalabrasProhibidas, v)
    ensures Validar(ReglaNoEspacios, v) && Validar(ReglaLongitud(3, 50), v)
  {
    assert v == "ese" + "admin" + "";
    assert Minusculas("admin") == "admin";
    PalabraEmbebidaFalla("ese", "admin", "");
    assert |v| == 8 && !ContieneEspacio(v);
  }

  /** The banned-word message mentions "palabras prohibidas" and the whitespace message mentions "espacios". */
  lemma MensajesMencionanSuMotivo()
    ensures EsSubcadena("palabras prohibidas", MENSAJE_PALABRAS_PROHIBIDAS)
    ensures EsSubcadena("espacios", MENSAJE_NO_ESPACIOS)
  {
    assert MENSAJE_PALABRAS_PROHIBIDAS == "El valor contiene " + "palabras prohibidas" + "";
    SubcadenaEmbebida("El valor contiene ", "palabras prohibidas", "");
    assert MENSAJE_NO_ESPACIOS == "El valor no puede contener " + "espacios" + "";
    SubcadenaEmbebida("El valor no puede contener ", "espacios", "");
  }

  /** A single whitespace rule: "sinespacio" passes, "con espacio" gets one message that mentions spaces. */
  lemma CasosUnaRegla()
    ensures Evaluar([ReglaNoEspacios], "sinespacio") == ResultadoValidacion(true, [])
    ensures Evaluar([ReglaNoEspacios], "con espacio") == ResultadoValidacion(false, [MENSAJE_NO_ESPACIOS])
    ensures EsSubcadena("espacios", Evaluar([ReglaNoEspacios], "con espacio").errores[0])
  {
    ErroresDeUna(ReglaNoEspacios, "sinespacio");
    ErroresDeUna(ReglaNoEspacios, "con espacio");
    assert !Validar(ReglaNoEspacios, "con espacio") by {
      assert EsEspacio("con espacio"[3]);
    }
    MensajesMencionanSuMotivo();
  }

  /** Three rules and one non-rule handed to `agregar_regla`: the non-rule raises TypeError, three rules are kept. */
  method CantidadTrasAgregar() returns (n: nat, excepcion: Option<Excepcion>)
    ensures n == 3 && excepcion == Some(TypeError)
  {
    var val := new Validador();
    var e1 := val.AgregarRegla(ArgRegla(ReglaNoEspacios));
    var e2 := val.AgregarRegla(ArgRegla(ReglaLongitud(3, 50)));
    excepcion := val.AgregarRegla(ArgOtro);
    var e3 := val.AgregarRegla(ArgRegla(ReglaNoPalabrasProhibidas));
    n := val.CantidadReglas();
  }

  /** A fresh validator holds no rule and accepts anything. */
  method ValidadorVacio(v: string) returns (n: nat, r: ResultadoValidacion)
    ensures n == 0 && r == ResultadoValidacion(true, [])
  {
    var val := new Validador();
    n := val.CantidadReglas();
    r := val.Validar(v);
  }
}
