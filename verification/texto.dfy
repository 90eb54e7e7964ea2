/**
  Text primitives both exercises rely on: Python's `str.isspace`, `str.lower`,
  `str.strip`, the `in` substring test and `str(n)`, restricted to ASCII.
 */
module Texto {

  /** Python's `str.isspace` on one ASCII character: space, \t \n \v \f \r and the separators 0x1C-0x1F. */
  predicate EsEspacio(c: char) {
    c == ' ' || 9 <= c as int <= 13 || 28 <= c as int <= 31
  }

  predicate EsMayuscula(c: char) {
    'A' <= c <= 'Z'
  }

  /** ASCII lower-casing of one character. */
  function Minuscula(c: char): (r: char)
    ensures !EsMayuscula(r)
    ensures EsMayuscula(c) ==> r as int == c as int + 32
    ensures !EsMayuscula(c) ==> r == c
  {
    if EsMayuscula(c) then (c as int + 32) as char else c
  }

  /** ASCII upper-casing of one character (used to state case-insensitivity). */
  function Mayuscula(c: char): (r: char)
    ensures Minuscula(r) == Minuscula(c)
  {
    if 'a' <= c <= 'z' then (c as int - 32) as char else c
  }

  /** `s.lower()` on ASCII text. */
  function Minusculas(s: string): (r: string)
    ensures |r| == |s|
    ensures forall i :: 0 <= i < |s| ==> r[i] == Minuscula(s[i])
  {
    MinusculasDesdeEn(s, 0);
    MinusculasDesde(s, 0)
  }

  /** The lower-cased suffix of `s` from index `i` on. */
  function MinusculasDesde(s: string, i: nat): (r: string)
    requires i <= |s|
    ensures |r| == |s| - i
    decreases |s| - i
  {
    if i == |s| then [] else [Minuscula(s[i])] + MinusculasDesde(s, i + 1)
  }

  lemma {:induction false} MinusculasDesdeEn(s: string, i: nat)
    requires i <= |s|
    ensures forall j :: 0 <= j < |s| - i ==> MinusculasDesde(s, i)[j] == Minuscula(s[i + j])
    decreases |s| - i
  {
    if i < |s| {
      MinusculasDesdeEn(s, i + 1);
    }
  }

  /** No character of `s` from index `i` on is an ASCII capital. */
  predicate SinMayusculasDesde(s: string, i: nat)
    requires i <= |s|
    decreases |s| - i
  {
    i == |s| || (!EsMayuscula(s[i]) && SinMayusculasDesde(s, i + 1))
  }

  /** Text without ASCII capitals is left unchanged by `lower()`. */
  lemma {:induction false} MinusculasSinMayusculas(s: string, i: nat)
    requires i <= |s| && SinMayusculasDesde(s, i)
    ensures forall j :: i <= j < |s| ==> Minusculas(s)[j] == s[j]
    decreases |s| - i
  {
    if i < |s| {
      MinusculasSinMayusculas(s, i + 1);
    }
  }

  /** `s.upper()` on ASCII text. */
  function Mayusculas(s: string): (r: string)
    ensures |r| == |s|
    ensures forall i :: 0 <= i < |s| ==> r[i] == Mayuscula(s[i])
  {
    if s == [] then [] else [Mayuscula(s[0])] + Mayusculas(s[1..])
  }

  /** Lower-casing works character by character, so it distributes over concatenation. */
  lemma MinusculasConcat(a: string, b: string)
    ensures Minusculas(a + b) == Minusculas(a) + Minusculas(b)
  {
    var l, r := Minusculas(a + b), Minusculas(a) + Minusculas(b);
    forall i | 0 <= i < |l| ensures l[i] == r[i] {
      if i < |a| { assert (a + b)[i] == a[i]; } else { assert (a + b)[i] == b[i - |a|]; }
    }
  }

  /** Upper-casing does not change the lower-cased text: lower-casing forgets case. */
  lemma MinusculasOlvidaMayusculas(s: string)
    ensures Minusculas(Mayusculas(s)) == Minusculas(s)
  {
    var a, b := Minusculas(Mayusculas(s)), Minusculas(s);
    assert |a| == |b|;
    forall i | 0 <= i < |a| ensures a[i] == b[i] {
      assert a[i] == Minuscula(Mayuscula(s[i]));
    }
  }

  /** `w` occurs in `s` as a contiguous run (Python's `w in s`). */
  ghost predicate EsSubcadena(w: string, s: string) {
    exists i :: ApareceEn(w, s, i)
  }

  /** `w` occurs in `s` starting at index `i`. */
  ghost predicate ApareceEn(w: string, s: string, i: int) {
    0 <= i <= |s| - |w| && s[i..i + |w|] == w
  }

  /** Python's `w in s`: a left-to-right scan for `w`. */
  function Contiene(s: string, w: string): (b: bool)
    ensures b <==> EsSubcadena(w, s)
  {
    ContieneDesdeCorrecto(s, w, 0);
    ContieneDesde(s, w, 0)
  }

  /** The scan from index `i` on. */
  function ContieneDesde(s: string, w: string, i: nat): bool
    requires i <= |s|
    decreases |s| - i
  {
    if |s| - i < |w| then false
    else CoincideEn(s, w, i, 0) || ContieneDesde(s, w, i + 1)
  }

  /** Character-by-character comparison of `w[k..]` with `s` at index `i + k`. */
  function CoincideEn(s: string, w: string, i: nat, k: nat): bool
    requires i + |w| <= |s| && k <= |w|
    decreases |w| - k
  {
    k == |w| || (s[i + k] == w[k] && CoincideEn(s, w, i, k + 1))
  }

  lemma {:induction false} CoincideEnCorrecto(s: string, w: string, i: nat, k: nat)
    requires i + |w| <= |s| && k <= |w|
    ensures CoincideEn(s, w, i, k) <==> s[i + k..i + |w|] == w[k..]
    decreases |w| - k
  {
    if k < |w| {
      CoincideEnCorrecto(s, w, i, k + 1);
      assert s[i + k..i + |w|] == [s[i + k]] + s[i + k + 1..i + |w|];
      assert w[k..] == [w[k]] + w[k + 1..];
    }
  }

  lemma {:induction false} ContieneDesdeCorrecto(s: string, w: string, i: nat)
    requires i <= |s|
    ensures ContieneDesde(s, w, i) <==> exists j :: i <= j && ApareceEn(w, s, j)
    decreases |s| - i
  {
    if |s| - i >= |w| {
      CoincideEnCorrecto(s, w, i, 0);
      assert w[0..] == w;
      if CoincideEn(s, w, i, 0) {
        assert ApareceEn(w, s, i);
      } else {
        assert !ApareceEn(w, s, i);
        ContieneDesdeCorrecto(s, w, i + 1);
        assert forall j :: i <= j && ApareceEn(w, s, j) ==> i + 1 <= j;
      }
    }
  }

  /** `w` placed anywhere inside a text is found there. */
  lemma SubcadenaEmbebida(a: string, w: string, b: string)
    ensures EsSubcadena(w, a + w + b)
  {
    var s := a + w + b;
    assert s[|a|..|a| + |w|] == w;
    assert ApareceEn(w, s, |a|);
  }

  /** A word with a character the text lacks is not found in it. */
  lemma AusenteNoContiene(s: string, w: string, k: nat)
    requires k < |w| && w[k] !in s
    ensures !Contiene(s, w)
  {
    forall i | 0 <= i <= |s| - |w|
      ensures !ApareceEn(w, s, i)
    {
      assert s[i..i + |w|][k] == s[i + k] != w[k];
    }
  }

  /** No position of `s` from `i` on holds `a` immediately followed by `b`. */
  predicate SinParDesde(s: string, a: char, b: char, i: nat)
    requires i <= |s|
    decreases |s| - i
  {
    i + 1 >= |s| || (!(s[i] == a && s[i + 1] == b) && SinParDesde(s, a, b, i + 1))
  }

  lemma {:induction false} SinParDesdeCorrecto(s: string, a: char, b: char, i: nat)
    requires i <= |s| && SinParDesde(s, a, b, i)
    ensures forall j :: i <= j < |s| - 1 ==> !(s[j] == a && s[j + 1] == b)
    decreases |s| - i
  {
    if i + 1 < |s| {
      SinParDesdeCorrecto(s, a, b, i + 1);
    }
  }

  /** A word with two adjacent characters that never stand together in the text is not found in it. */
  lemma ParAusenteNoContiene(s: string, w: string, k: nat)
    requires k + 1 < |w| && SinParDesde(s, w[k], w[k + 1], 0)
    ensures !Contiene(s, w)
  {
    SinParDesdeCorrecto(s, w[k], w[k + 1], 0);
    forall i | 0 <= i <= |s| - |w|
      ensures !ApareceEn(w, s, i)
    {
      assert s[i..i + |w|][k] == s[i + k] && s[i..i + |w|][k + 1] == s[i + k + 1];
    }
  }

  /** Some character of `s` is whitespace. */
  function ContieneEspacio(s: string): (b: bool)
    ensures b <==> exists i :: 0 <= i < |s| && EsEspacio(s[i])
  {
    ContieneEspacioDesde(s, 0)
  }

  /** Some character of `s` at index `i` or later is whitespace. */
  function ContieneEspacioDesde(s: string, i: nat): (b: bool)
    requires i <= |s|
    ensures b <==> exists j :: i <= j < |s| && EsEspacio(s[j])
    decreases |s| - i
  {
    if i == |s| then false
    else EsEspacio(s[i]) || ContieneEspacioDesde(s, i + 1)
  }

  /** Every character of `s` is whitespace (vacuously so for ""). */
  predicate EnBlanco(s: string) {
    forall i :: 0 <= i < |s| ==> EsEspacio(s[i])
  }

  /** Some character of `s` from index `i` on is not whitespace. */
  predicate HayVisibleDesde(s: string, i: nat)
    requires i <= |s|
    decreases |s| - i
  {
    i < |s| && (!EsEspacio(s[i]) || HayVisibleDesde(s, i + 1))
  }

  /** The scan for a visible character fails exactly on blank text. */
  lemma {:induction false} HayVisibleSiiNoEnBlanco(s: string, i: nat)
    requires i <= |s|
    ensures HayVisibleDesde(s, i) <==> !EnBlanco(s[i..])
    decreases |s| - i
  {
    if i < |s| {
      HayVisibleSiiNoEnBlanco(s, i + 1);
      assert s[i..] == [s[i]] + s[i + 1..];
      if EnBlanco(s[i + 1..]) && EsEspacio(s[i]) {
        forall j | 0 <= j < |s[i..]| ensures EsEspacio(s[i..][j]) {
          if j > 0 { assert s[i..][j] == s[i + 1..][j - 1]; }
        }
      }
      if !EnBlanco(s[i + 1..]) {
        var j :| 0 <= j < |s[i + 1..]| && !EsEspacio(s[i + 1..][j]);
        assert s[i..][j + 1] == s[i + 1..][j];
      }
    }
  }

  /** Leading whitespace removed (`s.lstrip()`). */
  function RecortarInicio(s: string): (r: string)
    ensures |r| <= |s| && r == s[|s| - |r|..]
    ensures r == [] || !EsEspacio(r[0])
    ensures EnBlanco(s[..|s| - |r|])
  {
    if s == [] || !EsEspacio(s[0]) then s
    else
      var r := RecortarInicio(s[1..]);
      assert s[..|s| - |r|] == [s[0]] + s[1..][..|s[1..]| - |r|];
      r
  }

  /** Trailing whitespace removed (`s.rstrip()`). */
  function RecortarFinal(s: string): (r: string)
    ensures |r| <= |s| && r == s[..|r|]
    ensures r == [] || !EsEspacio(r[|r| - 1])
    ensures EnBlanco(s[|r|..])
  {
    if s == [] || !EsEspacio(s[|s| - 1]) then s
    else
      var t := s[..|s| - 1];
      var r := RecortarFinal(t);
      assert s[|r|..] == t[|r|..] + [s[|s| - 1]];
      r
  }

  /** `s.strip()`: a stretch of `s` that neither starts nor ends with whitespace. */
  function Recortar(s: string): (r: string)
    ensures |r| <= |s|
    ensures r == [] || (!EsEspacio(r[0]) && !EsEspacio(r[|r| - 1]))
  {
    var t := RecortarInicio(s);
    var r := RecortarFinal(t);
    assert r != [] ==> r[0] == t[0];
    r
  }

  /** `s.strip()` is the stretch of `s` left after dropping a blank prefix of length `a` and a blank suffix. */
  lemma RecortarEsTramo(s: string) returns (a: nat)
    ensures a + |Recortar(s)| <= |s|
    ensures Recortar(s) == s[a..a + |Recortar(s)|]
    ensures EnBlanco(s[..a])
    ensures EnBlanco(s[a + |Recortar(s)|..])
  {
    var t := RecortarInicio(s);
    var r := RecortarFinal(t);
    a := |s| - |t|;
    assert r == Recortar(s);
    assert EnBlanco(s[..a]);
    assert t == s[a..];
    assert r == s[a..a + |r|] by {
      assert r == t[..|r|];
    }
    assert EnBlanco(s[a + |r|..]) by {
      assert s[a + |r|..] == t[|r|..];
      assert EnBlanco(t[|r|..]);
    }
  }

  /** `s.strip()` is empty exactly when `s` holds nothing but whitespace. */
  lemma RecortarVacioSiiEnBlanco(s: string)
    ensures Recortar(s) == [] <==> EnBlanco(s)
  {
    var t := RecortarInicio(s);
    if t != [] {
      assert t[0] == s[|s| - |t|];
    }
  }

  predicate EsDigito(c: char) {
    '0' <= c <= '9'
  }

  function Digito(d: nat): (c: char)
    requires d < 10
    ensures EsDigito(c) && c as int - '0' as int == d
  {
    (d + '0' as int) as char
  }

  /** `str(n)`: the decimal digits of `n`, without leading zeros. */
  function NatACadena(n: nat): (s: string)
    ensures |s| > 0
    ensures forall i :: 0 <= i < |s| ==> EsDigito(s[i])
    ensures s[0] == '0' <==> n == 0
    ensures |s| > 1 ==> s[0] != '0'
  {
    if n < 10 then [Digito(n)] else NatACadena(n / 10) + [Digito(n % 10)]
  }

  /** `int(s)` for a string of decimal digits: the inverse of NatACadena. */
  function CadenaANat(s: string): nat
    requires forall i :: 0 <= i < |s| ==> EsDigito(s[i])
  {
    if s == [] then 0
    else
      assert EsDigito(s[|s| - 1]);
      CadenaANat(s[..|s| - 1]) * 10 + (s[|s| - 1] as int - '0' as int)
  }

  /** Reading back the decimal text of `n` gives `n`. */
  lemma {:induction false} CadenaANatDeNatACadena(n: nat)
    ensures CadenaANat(NatACadena(n)) == n
  {
    var s := NatACadena(n);
    if n >= 10 {
      CadenaANatDeNatACadena(n / 10);
      assert s[..|s| - 1] == NatACadena(n / 10);
    }
  }

  /** Two digit strings each followed by a text that starts with a non-digit split the same way. */
  lemma {:induction false} SeparaDigitos(x: string, s: string, y: string, t: string)
    requires forall i :: 0 <= i < |x| ==> EsDigito(x[i])
    requires forall i :: 0 <= i < |y| ==> EsDigito(y[i])
    requires s != [] && !EsDigito(s[0]) && t != [] && !EsDigito(t[0])
    requires x + s == y + t
    ensures x == y && s == t
  {
    if x != [] && y != [] {
      assert x[0] == (x + s)[0] == (y + t)[0] == y[0];
      assert x[1..] + s == (x + s)[1..] == (y + t)[1..] == y[1..] + t;
      SeparaDigitos(x[1..], s, y[1..], t);
    } else {
      // whichever side is non-empty would put a digit where the other puts a non-digit
      assert EsDigito((x + s)[0]) <==> x != [];
      assert EsDigito((y + t)[0]) <==> y != [];
      assert x == [] && y == [];
      assert s == x + s == y + t == t;
    }
  }

  /** Distinct numbers print differently. */
  lemma NatACadenaInyectiva(a: nat, b: nat)
    requires NatACadena(a) == NatACadena(b)
    ensures a == b
  {
    CadenaANatDeNatACadena(a);
    CadenaANatDeNatACadena(b);
  }
}
