/**
  The validation rules of the form-validator exercise (`Regla` and its four
  subclasses): each rule decides whether a text is acceptable and carries a
  fixed error message.
 */
module Reglas {
  import opened Comun
  import opened Texto

  /** The four concrete rules; `Regla` itself is never a value of its own. */
  datatype ReglaDef =
    | ReglaNoPalabrasProhibidas
    | ReglaLongitud(minimo: nat, maximo: nat)
    | ReglaFormatoEmail
    | ReglaNoEspacios

  /** A rule as the exercise can build it: a length rule always has `minimo <= maximo`. */
  type Regla = r: ReglaDef | r.ReglaLongitud? ==> r.minimo <= r.maximo witness ReglaNoEspacios

  const PALABRAS_PROHIBIDAS: seq<string> := ["admin", "root", "hack", "drop", "select", "delete"]

  const MENSAJE_PALABRAS_PROHIBIDAS: string := "El valor contiene palabras prohibidas"
  const MENSAJE_FORMATO_EMAIL: string := "El formato de email no es válido"
  const MENSAJE_NO_ESPACIOS: string := "El valor no puede contener espacios"
  /** The length rule's message is this prefix followed by `"{minimo} y {maximo}"`. */
  const PREFIJO_LONGITUD: string := "La longitud debe estar entre "

  /** `ReglaLongitud(minimo, maximo)`: raises ValueError on a negative minimum or a maximum below the minimum. */
  function CrearLongitud(minimo: int, maximo: int): (r: Result<Regla>)
    ensures r.Err? <==> minimo < 0 || maximo < minimo
    ensures r.Err? ==> r.error == ValueError
    ensures r.Ok? ==> r.value.ReglaLongitud? && r.value.minimo == minimo && r.value.maximo == maximo
  {
    if minimo < 0 || maximo < minimo then Err(ValueError)
    else Ok(ReglaLongitud(minimo, maximo))
  }

  // ---------------------------------------------------------------- forbidden words

  /** `ReglaNoPalabrasProhibidas.validar`: no banned word occurs anywhere in the lower-cased text. */
  function ValidarPalabras(v: string): (ok: bool)
    ensures ok <==> forall p :: p in PALABRAS_PROHIBIDAS ==> !EsSubcadena(p, Minusculas(v))
  {
    NingunaAparece(Minusculas(v), PALABRAS_PROHIBIDAS)
  }

  /** None of `palabras` occurs in `texto` (Python's `not any(p in texto for p in palabras)`). */
  function NingunaAparece(texto: string, palabras: seq<string>): (ok: bool)
    ensures ok <==> forall p :: p in palabras ==> !EsSubcadena(p, texto)
  {
    NingunaApareceDesdeCorrecto(texto, palabras, 0);
    NingunaApareceDesde(texto, palabras, 0)
  }

  /** The scan over `palabras` from index `k` on. */
  function NingunaApareceDesde(texto: string, palabras: seq<string>, k: nat): bool
    requires k <= |palabras|
    decreases |palabras| - k
  {
    k == |palabras| || (!Contiene(texto, palabras[k]) && NingunaApareceDesde(texto, palabras, k + 1))
  }

  lemma {:induction false} NingunaApareceDesdeCorrecto(texto: string, palabras: seq<string>, k: nat)
    requires k <= |palabras|
    ensures NingunaApareceDesde(texto, palabras, k) <==>
      forall j :: k <= j < |palabras| ==> !EsSubcadena(palabras[j], texto)
    decreases |palabras| - k
  {
    if k < |palabras| {
      NingunaApareceDesdeCorrecto(texto, palabras, k + 1);
    }
  }

  // ---------------------------------------------------------------- e-mail format

  /** `s.count(c)`. */
  function Contar(s: string, c: char): (n: nat)
    ensures n == 0 <==> c !in s
  {
    if s == [] then 0
    else
      var n := (if s[0] == c then 1 else 0) + Contar(s[1..], c);
      assert c in s <==> s[0] == c || c in s[1..];
      n
  }

  lemma {:induction false} ContarConcat(a: string, b: string, c: char)
    ensures Contar(a + b, c) == Contar(a, c) + Contar(b, c)
  {
    if a != [] {
      assert (a + b)[1..] == a[1..] + b;
      ContarConcat(a[1..], b, c);
    } else {
      assert a + b == b;
    }
  }

  /** `s.index(c)`: the first position of `c`. */
  function IndiceDe(s: string, c: char): (i: nat)
    requires c in s
    ensures i < |s| && s[i] == c && c !in s[..i]
  {
    if s[0] == c then 0
    else
      var i := 1 + IndiceDe(s[1..], c);
      assert s[..i] == [s[0]] + s[1..][..i - 1];
      i
  }

  /** `s.rindex(c)`: the last position of `c`. */
  function UltimoIndiceDe(s: string, c: char): (i: nat)
    requires c in s
    ensures i < |s| && s[i] == c && c !in s[i + 1..]
  {
    if s[|s| - 1] == c then |s| - 1
    else
      var t := s[..|s| - 1];
      assert c in t by { var k :| 0 <= k < |s| && s[k] == c; assert t[k] == c; }
      var i := UltimoIndiceDe(t, c);
      assert s[i + 1..] == t[i + 1..] + [s[|s| - 1]];
      i
  }

  /**
    `ReglaFormatoEmail.validar`, checked in order: exactly one '@', a non-empty
    user part before it, a '.' in the domain after it, and a non-empty segment
    after the domain's last '.'.
   */
  function ValidarEmail(v: string): (ok: bool)
    ensures ok ==> Contar(v, '@') == 1 && |v| > 0 && v[0] != '@' && v[|v| - 1] != '.'
  {
    if Contar(v, '@') != 1 then false
    else
      var i := IndiceDe(v, '@');
      var usuario, dominio := v[..i], v[i + 1..];
      if usuario == [] then false
      else if '.' !in dominio then false
      else dominio[UltimoIndiceDe(dominio, '.') + 1..] != []
  }

  /** Position `i` holds the only '@' of `v`. */
  ghost predicate ArrobaUnicaEn(v: string, i: int) {
    0 <= i < |v| && v[i] == '@' && '@' !in v[..i] && '@' !in v[i + 1..]
  }

  /** The e-mail shape as a property of the whole text. */
  ghost predicate EsEmailEstructural(v: string) {
    exists i :: ArrobaUnicaEn(v, i) && 0 < i && '.' in v[i + 1..] && v[|v| - 1] != '.'
  }

  /** With an '@' at `j`, the text has exactly one '@' iff there is none on either side of `j`. */
  lemma ContarArrobaUnica(v: string, j: nat)
    requires j < |v| && v[j] == '@'
    ensures Contar(v, '@') == 1 <==> ArrobaUnicaEn(v, j)
  {
    assert v == v[..j] + [v[j]] + v[j + 1..];
    ContarConcat(v[..j] + [v[j]], v[j + 1..], '@');
    ContarConcat(v[..j], [v[j]], '@');
  }

  /** The stepwise check accepts exactly the texts of e-mail shape. */
  lemma EmailCorrecto(v: string)
    ensures ValidarEmail(v) <==> EsEmailEstructural(v)
  {
    if Contar(v, '@') == 1 {
      var i := IndiceDe(v, '@');
      ContarArrobaUnica(v, i);
      var dominio := v[i + 1..];
      if '.' in dominio {
        var u := UltimoIndiceDe(dominio, '.');
        assert dominio[|dominio| - 1] == v[|v| - 1];
        if u < |dominio| - 1 {
          assert dominio[u + 1..][|dominio| - 1 - (u + 1)] == dominio[|dominio| - 1];
        }
      }
    } else {
      if EsEmailEstructural(v) {
        var j :| ArrobaUnicaEn(v, j) && 0 < j && '.' in v[j + 1..] && v[|v| - 1] != '.';
        ContarArrobaUnica(v, j);
      }
    }
  }

  // ---------------------------------------------------------------- all rules

  /** `regla.validar(v)`, dispatched on the rule's class. */
  function Validar(r: Regla, v: string): (ok: bool)
    ensures r.ReglaNoPalabrasProhibidas? ==>
      (ok <==> forall p :: p in PALABRAS_PROHIBIDAS ==> !EsSubcadena(p, Minusculas(v)))
    ensures r.ReglaLongitud? ==> (ok <==> r.minimo <= |v| <= r.maximo)
    ensures r.ReglaFormatoEmail? ==> (ok <==> EsEmailEstructural(v))
    ensures r.ReglaNoEspacios? ==> (ok <==> forall i :: 0 <= i < |v| ==> !EsEspacio(v[i]))
  {
    match r
    case ReglaNoPalabrasProhibidas => ValidarPalabras(v)
    case ReglaLongitud(minimo, maximo) => minimo <= |v| <= maximo
    case ReglaFormatoEmail => EmailCorrecto(v); ValidarEmail(v)
    case ReglaNoEspacios => !ContieneEspacio(v)
  }

  /** Both bounds, as printed, occur in the length message. */
  lemma MencionaCotas(a: string, b: string)
    ensures EsSubcadena(a, PREFIJO_LONGITUD + a + " y " + b)
    ensures EsSubcadena(b, PREFIJO_LONGITUD + a + " y " + b)
  {
    var m := PREFIJO_LONGITUD + a + " y " + b;
    var i := |PREFIJO_LONGITUD|;
    assert m[i..i + |a|] == a;
    assert ApareceEn(a, m, i);
    assert m[i + |a| + 3..] == b;
    assert ApareceEn(b, m, i + |a| + 3);
  }

  /** `regla.mensaje_error()`: depends on the rule only, never on the value validated. */
  function MensajeError(r: Regla): (m: string)
    ensures r.ReglaLongitud? ==> EsSubcadena(NatACadena(r.minimo), m) && EsSubcadena(NatACadena(r.maximo), m)
  {
    match r
    case ReglaNoPalabrasProhibidas => MENSAJE_PALABRAS_PROHIBIDAS
    case ReglaLongitud(minimo, maximo) =>
      var a, b := NatACadena(minimo), NatACadena(maximo);
      MencionaCotas(a, b);
      PREFIJO_LONGITUD + a + " y " + b
    case ReglaFormatoEmail => MENSAJE_FORMATO_EMAIL
    case ReglaNoEspacios => MENSAJE_NO_ESPACIOS
  }

  // ---------------------------------------------------------------- properties

  /** A banned word, in any ASCII casing, embedded anywhere in a text (not only as a whole word) makes it fail. */
  lemma PalabraEmbebidaFalla(a: string, x: string, b: string)
    requires Minusculas(x) in PALABRAS_PROHIBIDAS
    ensures !Validar(ReglaNoPalabrasProhibidas, a + x + b)
  {
    MinusculasConcat(a + x, b);
    MinusculasConcat(a, x);
    SubcadenaEmbebida(Minusculas(a), Minusculas(x), Minusculas(b));
  }

  /** The banned-word check ignores ASCII case: upper-casing a text never changes its verdict. */
  lemma PalabrasInsensibleMayusculas(v: string)
    ensures Validar(ReglaNoPalabrasProhibidas, Mayusculas(v)) == Validar(ReglaNoPalabrasProhibidas, v)
  {
    MinusculasOlvidaMayusculas(v);
  }

  /** The banned-word verdict as six searches in the lower-cased text. */
  lemma PalabrasSegunMinusculas(v: string, t: string)
    requires Minusculas(v) == t
    ensures Validar(ReglaNoPalabrasProhibidas, v) <==>
      !Contiene(t, "admin") && !Contiene(t, "root") && !Contiene(t, "hack") &&
      !Contiene(t, "drop") && !Contiene(t, "select") && !Contiene(t, "delete")
  {
  }

  /** For a text without capitals, the verdict is six searches in the text itself. */
  lemma PalabrasEnMinusculas(v: string)
    requires SinMayusculasDesde(v, 0)
    ensures Validar(ReglaNoPalabrasProhibidas, v) <==>
      !Contiene(v, "admin") && !Contiene(v, "root") && !Contiene(v, "hack") &&
      !Contiene(v, "drop") && !Contiene(v, "select") && !Contiene(v, "delete")
  {
    MinusculasSinMayusculas(v, 0);
    PalabrasSegunMinusculas(v, v);
  }

  /** With equal bounds only texts of exactly that length pass. */
  lemma LongitudExacta(n: nat, v: string)
    ensures CrearLongitud(n, n).Ok?
    ensures Validar(CrearLongitud(n, n).value, v) <==> |v| == n
  {
  }

  /** Two length messages printed from digit strings agree only when their digit strings do. */
  lemma CotasDelMensaje(a: string, b: string, c: string, d: string)
    requires forall i :: 0 <= i < |a| ==> EsDigito(a[i])
    requires forall i :: 0 <= i < |c| ==> EsDigito(c[i])
    requires PREFIJO_LONGITUD + a + " y " + b == PREFIJO_LONGITUD + c + " y " + d
    ensures a == c && b == d
  {
    var prefijo := PREFIJO_LONGITUD;
    var m1, m2 := prefijo + a + " y " + b, prefijo + c + " y " + d;
    assert m1[|prefijo|..] == a + (" y " + b);
    assert m2[|prefijo|..] == c + (" y " + d);
    SeparaDigitos(a, " y " + b, c, " y " + d);
    assert b == (" y " + b)[3..] == (" y " + d)[3..] == d;
  }

  /** The length message is built from the bounds and determines them: different bounds, different messages. */
  lemma MensajeLongitudDeterminaCotas(r1: Regla, r2: Regla)
    requires r1.ReglaLongitud? && r2.ReglaLongitud?
    requires MensajeError(r1) == MensajeError(r2)
    ensures r1 == r2
  {
    var a, b := NatACadena(r1.minimo), NatACadena(r1.maximo);
    var c, d := NatACadena(r2.minimo), NatACadena(r2.maximo);
    CotasDelMensaje(a, b, c, d);
    NatACadenaInyectiva(r1.minimo, r2.minimo);
    NatACadenaInyectiva(r1.maximo, r2.maximo);
  }

  /** The error message identifies the rule: no two different rules report the same message. */
  lemma MensajeDeterminaRegla(r1: Regla, r2: Regla)
    requires MensajeError(r1) == MensajeError(r2)
    ensures r1 == r2
  {
    if r1.ReglaLongitud? && r2.ReglaLongitud? {
      MensajeLongitudDeterminaCotas(r1, r2);
    } else {
      // a length message starts with 'L', the fixed ones with "El ", then 'v'alor or 'f'ormato,
      // and the two "El valor" messages part at "c"ontiene / "n"o
      var m1, m2 := MensajeError(r1), MensajeError(r2);
      assert m1[0] == m2[0] && m1[3] == m2[3] && m1[9] == m2[9];
    }
  }

  // ---------------------------------------------------------------- the cases the exercise checks

  lemma CasoTextoLimpio(v: string)
    requires v == "hola mundo"
    ensures Validar(ReglaNoPalabrasProhibidas, v)
  {
    assert SinMayusculasDesde(v, 0) by { assert SinMayusculasDesde("hola mundo", 0); }
    assert 'i' !in v && 'r' !in v && 'c' !in v && 's' !in v && 't' !in v;
    AusenteNoContiene(v, "admin", 3);
    AusenteNoContiene(v, "root", 0);
    AusenteNoContiene(v, "hack", 2);
    AusenteNoContiene(v, "drop", 1);
    AusenteNoContiene(v, "select", 0);
    AusenteNoContiene(v, "delete", 4);
    PalabrasEnMinusculas(v);
  }

  lemma CasoTextoSinPalabras(v: string)
    requires v == "usuario normal de prueba"
    ensures Validar(ReglaNoPalabrasProhibidas, v)
  {
    UsuarioNormalSinMayusculas(v);
    UsuarioNormalSinPar(v, 'a', 'd');
    UsuarioNormalSinPar(v, 'r', 'o');
    UsuarioNormalSinPar(v, 'd', 'r');
    UsuarioNormalSinLetras(v);
    ParAusenteNoContiene(v, "admin", 0);
    ParAusenteNoContiene(v, "root", 0);
    AusenteNoContiene(v, "hack", 0);
    ParAusenteNoContiene(v, "drop", 0);
    AusenteNoContiene(v, "select", 4);
    AusenteNoContiene(v, "delete", 4);
    PalabrasEnMinusculas(v);
  }

  lemma UsuarioNormalSinMayusculas(v: string)
    requires v == "usuario normal de prueba"
    ensures SinMayusculasDesde(v, 0)
  {
    assert SinMayusculasDesde("usuario normal de prueba", 20);
    assert SinMayusculasDesde("usuario normal de prueba", 16);
    assert SinMayusculasDesde("usuario normal de prueba", 12);
    assert SinMayusculasDesde("usuario normal de prueba", 8);
    assert SinMayusculasDesde("usuario normal de prueba", 4);
    assert SinMayusculasDesde("usuario normal de prueba", 0);
  }

  lemma UsuarioNormalSinPar(v: string, a: char, b: char)
    requires v == "usuario normal de prueba"
    requires (a, b) == ('a', 'd') || (a, b) == ('r', 'o') || (a, b) == ('d', 'r')
    ensures SinParDesde(v, a, b, 0)
  {
    assert SinParDesde("usuario normal de prueba", a, b, 20);
    assert SinParDesde("usuario normal de prueba", a, b, 16);
    assert SinParDesde("usuario normal de prueba", a, b, 12);
    assert SinParDesde("usuario normal de prueba", a, b, 8);
    assert SinParDesde("usuario normal de prueba", a, b, 4);
    assert SinParDesde("usuario normal de prueba", a, b, 0);
  }

  lemma UsuarioNormalSinLetras(v: string)
    requires v == "usuario normal de prueba"
    ensures 'h' !in v && 'c' !in v && 't' !in v
  {
  }

  lemma CasoContieneAdmin(v: string)
    requires v == "soy admin del sistema"
    ensures !Validar(ReglaNoPalabrasProhibidas, v)
  {
    assert v == "soy " + "admin" + " del sistema";
    assert Minusculas("admin") == "admin";
    PalabraEmbebidaFalla("soy ", "admin", " del sistema");
  }

  lemma CasoContieneRoot(v: string)
    requires v == "acceso root"
    ensures !Validar(ReglaNoPalabrasProhibidas, v)
  {
    assert v == "acceso " + "root" + "";
    assert Minusculas("root") == "root";
    PalabraEmbebidaFalla("acceso ", "root", "");
  }

  lemma CasoContieneHack(v: string)
    requires v == "voy a hackearte"
    ensures !Validar(ReglaNoPalabrasProhibidas, v)
  {
    assert v == "voy a " + "hack" + "earte";
    assert Minusculas("hack") == "hack";
    PalabraEmbebidaFalla("voy a ", "hack", "earte");
  }

  lemma CasoContieneDrop(v: string)
    requires v == "drop table usuarios"
    ensures !Validar(ReglaNoPalabrasProhibidas, v)
  {
    assert v == "" + "drop" + " table usuarios";
    assert Minusculas("drop") == "drop";
    PalabraEmbebidaFalla("", "drop", " table usuarios");
  }

  lemma CasoContieneSelect(v: string)
    requires v == "select * from tabla"
    ensures !Validar(ReglaNoPalabrasProhibidas, v)
  {
    assert v == "" + "select" + " * from tabla";
    assert Minusculas("select") == "select";
    PalabraEmbebidaFalla("", "select", " * from tabla");
  }

  lemma CasoContieneDelete(v: string)
    requires v == "delete all"
    ensures !Validar(ReglaNoPalabrasProhibidas, v)
  {
    assert v == "" + "delete" + " all";
    assert Minusculas("delete") == "delete";
    PalabraEmbebidaFalla("", "delete", " all");
  }

  lemma CasoMayusculas(v: string)
    requires v == "soy ADMIN"
    ensures !Validar(ReglaNoPalabrasProhibidas, v)
  {
    assert v == "soy " + "ADMIN" + "";
    assert Minusculas("ADMIN") == "admin";
    PalabraEmbebidaFalla("soy ", "ADMIN", "");
  }

  lemma CasoMayusculasMixtas(v: string)
    requires v == "soy AdMiN"
    ensures !Validar(ReglaNoPalabrasProhibidas, v)
  {
    assert v == "soy " + "AdMiN" + "";
    assert Minusculas("AdMiN") == "admin";
    PalabraEmbebidaFalla("soy ", "AdMiN", "");
  }

  lemma CasoPalabraSola(v: string)
    requires v == "admin"
    ensures !Validar(ReglaNoPalabrasProhibidas, v)
  {
    assert v == "" + "admin" + "";
    assert Minusculas("admin") == "admin";
    PalabraEmbebidaFalla("", "admin", "");
  }

  lemma CasosLongitud()
    ensures CrearLongitud(-1, 10) == Err(ValueError)
    ensures CrearLongitud(10, 5) == Err(ValueError)
    ensures CrearLongitud(3, 10).Ok? && CrearLongitud(1, 10).Ok?
    ensures CrearLongitud(3, 50).Ok? && CrearLongitud(1, 100).Ok?
    ensures Validar(CrearLongitud(3, 10).value, "hola")
    ensures Validar(CrearLongitud(3, 10).value, "abc")
    ensures Validar(CrearLongitud(3, 10).value, "abcdefghij")
    ensures !Validar(CrearLongitud(3, 10).value, "ab")
    ensures !Validar(CrearLongitud(3, 10).value, "abcdefghijk")
    ensures !Validar(CrearLongitud(1, 10).value, "")
    ensures MensajeError(CrearLongitud(3, 50).value) == "La longitud debe estar entre 3 y 50"
    ensures MensajeError(CrearLongitud(1, 100).value) == "La longitud debe estar entre 1 y 100"
  {
  }

  /** With `i` the position of the only '@', the remaining checks decide the verdict. */
  lemma EmailConArrobaUnica(v: string, i: nat)
    requires ArrobaUnicaEn(v, i)
    ensures Validar(ReglaFormatoEmail, v) <==> 0 < i && '.' in v[i + 1..] && v[|v| - 1] != '.'
  {
  }

  /** A text with no '@', or with two of them, is never accepted as an e-mail. */
  lemma EmailSinArrobaUnica(v: string, i: nat, j: nat)
    requires '@' !in v || (i < j < |v| && v[i] == '@' && v[j] == '@')
    ensures !Validar(ReglaFormatoEmail, v)
  {
    if '@' in v {
      assert v[..j][i] == '@' && v[j..][0] == '@';
      assert v == v[..j] + v[j..];
      ContarConcat(v[..j], v[j..], '@');
    }
  }

  lemma CasoEmailBasico(v: string)
    requires v == "user@example.com"
    ensures Validar(ReglaFormatoEmail, v)
  {
    assert '@' !in v[..4] && '@' !in v[4 + 1..];
    assert v[4 + 1..][7] == '.';
    EmailConArrobaUnica(v, 4);
  }

  lemma CasoEmailMinimo(v: string)
    requires v == "a@b.c"
    ensures Validar(ReglaFormatoEmail, v)
  {
    assert '@' !in v[..1] && '@' !in v[1 + 1..];
    assert v[1 + 1..][1] == '.';
    EmailConArrobaUnica(v, 1);
  }

  lemma CasoEmailSubdominio(v: string)
    requires v == "user@sub.example.com"
    ensures Validar(ReglaFormatoEmail, v)
  {
    assert '@' !in v[..4] && '@' !in v[4 + 1..];
    assert v[4 + 1..][3] == '.';
    EmailConArrobaUnica(v, 4);
  }

  lemma CasoEmailSinArroba(v: string)
    requires v == "userexample.com"
    ensures !Validar(ReglaFormatoEmail, v)
  {
    EmailSinArrobaUnica(v, 0, 0);
  }

  lemma CasoEmailDosArrobas(v: string)
    requires v == "user@@example.com"
    ensures !Validar(ReglaFormatoEmail, v)
  {
    EmailSinArrobaUnica(v, 4, 5);
  }

  lemma CasoEmailSinUsuario(v: string)
    requires v == "@example.com"
    ensures !Validar(ReglaFormatoEmail, v)
  {
    assert '@' !in v[1..];
    EmailConArrobaUnica(v, 0);
  }

  lemma CasoEmailSinDominio(v: string)
    requires v == "user@"
    ensures !Validar(ReglaFormatoEmail, v)
  {
    assert '@' !in v[..4];
    EmailConArrobaUnica(v, 4);
  }

  lemma CasoEmailSinPuntoEnDominio(v: string)
    requires v == "user@example"
    ensures !Validar(ReglaFormatoEmail, v)
  {
    assert '@' !in v[..4] && '.' !in v[5..];
    EmailConArrobaUnica(v, 4);
  }

  lemma CasoEmailExtensionVacia(v: string)
    requires v == "user@example."
    ensures !Validar(ReglaFormatoEmail, v)
  {
    assert '@' !in v[..4] && '@' !in v[5..];
    EmailConArrobaUnica(v, 4);
  }

  lemma CasoEmailSoloArroba(v: string)
    requires v == "@"
    ensures !Validar(ReglaFormatoEmail, v)
  {
    EmailConArrobaUnica(v, 0);
  }

  lemma CasoEmailVacio(v: string)
    requires v == ""
    ensures !Validar(ReglaFormatoEmail, v)
  {
    EmailSinArrobaUnica(v, 0, 0);
  }

  lemma CasoMensajes()
    ensures MensajeError(ReglaNoPalabrasProhibidas) == "El valor contiene palabras prohibidas"
    ensures MensajeError(ReglaFormatoEmail) == "El formato de email no es válido"
    ensures MensajeError(ReglaNoEspacios) == "El valor no puede contener espacios"
  {
  }

  lemma CasosNoEspacios()
    ensures Validar(ReglaNoEspacios, "sinespacio")
    ensures !Validar(ReglaNoEspacios, "con espacio")
    ensures !Validar(ReglaNoEspacios, " inicio")
    ensures !Validar(ReglaNoEspacios, "final ")
    ensures !Validar(ReglaNoEspacios, "   ")
    ensures Validar(ReglaNoEspacios, "")
  {
  }
}
