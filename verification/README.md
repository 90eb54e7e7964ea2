# Validador modular y registro seguro — a Dafny model

This project models two small Python teaching exercises, as their self-grading
test suites describe them.

- **Form validator** (`validador`).
  - An abstract rule `Regla` has four concrete rules:
    - `ReglaNoPalabrasProhibidas`: a case-insensitive substring ban on admin, root, hack, drop, select and delete.
    - `ReglaLongitud(min, max)`: an inclusive length test whose bounds are checked when the rule is built.
    - `ReglaFormatoEmail`: a structural e-mail check.
    - `ReglaNoEspacios`: rejects any whitespace.
  - Each rule answers `validar(valor)` and carries a fixed `mensaje_error()`.
  - `Validador` keeps the rules in registration order (`agregar_regla`, `cantidad_reglas`).
  - `validar(valor)` runs every rule. It returns `es_valido` together with the messages of the failing rules.
- **Secure event log** (`log`).
  - `Evento(tipo, mensaje)` accepts only the four types of `TIPOS_VALIDOS` and a message that is not blank. It stamps the event with the creation time.
  - `RegistradorSeguro` is an append-only list of events. It supports:
    - `registrar`, `cantidad_eventos`, `obtener_eventos`;
    - `filtrar_por_tipo`, `cantidad_por_tipo`;
    - `ultimo_evento`, `limpiar`.

Layout:

| file | module | what it holds |
|---|---|---|
| `comun.dfy` | `Comun` | `Option`, the two exceptions (`ValueError`, `TypeError`), `Result` |
| `texto.dfy` | `Texto` | the string primitives both exercises lean on, ASCII only: `isspace`, `lower`, `upper`, `strip`, the `in` substring test, `str(n)` |
| `reglas.dfy` | `Reglas` | the four rules: construction, `validar`, `mensaje_error`, and their properties |
| `validador.dfy` | `Validadores` | the `Validador` class, the fold that specifies `validar`, and the exercise's aggregate cases |
| `registro.dfy` | `Registro` | `Evento`, the `RegistradorSeguro` class, the filter that specifies it, and the exercise's cases |

Design:

- A rule is a value of the subset type `Regla` over the datatype `ReglaDef`.
  - A length rule always has `minimo <= maximo`.
  - `CrearLongitud` is the checked constructor. It returns `Err(ValueError)` instead of raising.
- An event is a value of the subset type `Evento`. Its type is valid and its message has a visible character.
  - `CrearEvento` is the checked constructor.
  - The creation time is an input (`ahora`), not a clock reading.
- Arguments that are not a rule or not an event are modelled as one extra alternative: `Argumento.ArgOtro` and `Valor.OtroValor`.
  - `agregar_regla` answers these with `TypeError`.
  - `registrar` answers these with `false`.
- The two stateful objects are classes with a `seq` field. Their methods state the new contents in terms of the old.
- The loops of `validar`, `filtrar_por_tipo` and `cantidad_por_tipo` are proved against the recursive specification functions `Errores` and `Filtrar`.
- Lemmas then characterise those functions without recursion:
  - which rules fail and in what order;
  - which events are kept;
  - how the per-type counts add up.

## Model

| member | source | states |
|---|---|---|
| `Texto.Minusculas` | Validator/tests/tests.py:48-52 | `lower()` keeps the length and lower-cases each character on its own |
| `Texto.MinusculasOlvidaMayusculas` | Validator/tests/tests.py:48-52 | lower-casing an upper-cased text gives the same as lower-casing the original: case is forgotten |
| `Texto.MinusculasConcat` | Validator/tests/tests.py:30-55 | lower-casing distributes over concatenation |
| `Texto.Contiene` | Validator/tests/tests.py:30-58 | the scan answers true exactly when the word occurs as a contiguous run somewhere in the text |
| `Texto.SubcadenaEmbebida` | Validator/tests/tests.py:30-55 | a word placed anywhere inside a text, even inside another word, is found |
| `Texto.AusenteNoContiene` | Validator/tests/tests.py:27-28 | a word with a character the text lacks is not found |
| `Texto.ParAusenteNoContiene` | Validator/tests/tests.py:57-58 | a word with two adjacent characters that never stand together in the text is not found |
| `Texto.ContieneEspacio` | Validator/tests/tests.py:159-175 | true exactly when some character is whitespace |
| `Texto.RecortarInicio` | secure_log/tests/tests.py:65-75 | `lstrip()` returns a suffix that is empty or starts with a visible character, and what it dropped is all whitespace |
| `Texto.RecortarFinal` | secure_log/tests/tests.py:65-75 | `rstrip()` returns a prefix that is empty or ends with a visible character, and what it dropped is all whitespace |
| `Texto.Recortar` | secure_log/tests/tests.py:65-75 | `strip()` is no longer than the text and, unless empty, neither starts nor ends with whitespace |
| `Texto.RecortarEsTramo` | secure_log/tests/tests.py:65-75 | `strip()` is exactly the slice of the text left after dropping an all-whitespace prefix and an all-whitespace suffix; with `Recortar`'s own ensures the dropped parts are maximal |
| `Texto.RecortarVacioSiiEnBlanco` | secure_log/tests/tests.py:65-75 | `strip()` is empty exactly when the text is all whitespace, the empty text included |
| `Texto.HayVisibleSiiNoEnBlanco` | secure_log/tests/tests.py:65-75 | the scan for a visible character fails exactly on blank text |
| `Texto.NatACadena` | Validator/tests/tests.py:105-111 | `str(n)` is a non-empty string of decimal digits in canonical form: it starts with '0' exactly when n is 0, and a longer string never starts with '0' |
| `Texto.CadenaANatDeNatACadena` | Validator/tests/tests.py:105-111 | reading back the digits of `str(n)` gives `n` |
| `Texto.NatACadenaInyectiva` | Validator/tests/tests.py:105-111 | distinct numbers print differently |
| `Reglas.CrearLongitud` | Validator/tests/tests.py:67-73 | ValueError exactly when the minimum is negative or the maximum is below the minimum; otherwise a length rule with those bounds |
| `Reglas.ValidarPalabras` | Validator/tests/tests.py:27-58 | true exactly when none of the six banned words occurs in the lower-cased text |
| `Reglas.Validar` | Validator/tests/tests.py:27-180 | per rule: no banned word in the lower-cased text; `minimo <= len <= maximo`; the e-mail shape; no whitespace character |
| `Reglas.ValidarEmail` | Validator/tests/tests.py:118-149 | an accepted address has exactly one '@', does not start with '@' and does not end with '.' (the full equivalence is `EmailCorrecto`) |
| `Reglas.EmailCorrecto` | Validator/tests/tests.py:118-149 | the stepwise check accepts exactly the texts with one '@', a non-empty part before it, a '.' after it, and a last character that is not '.' |
| `Reglas.ContarArrobaUnica` | Validator/tests/tests.py:127-131 | with an '@' at position j, the text has exactly one '@' iff none stands on either side of j |
| `Reglas.EmailConArrobaUnica` | Validator/tests/tests.py:118-149 | given the only '@', the verdict is: non-empty user part, a '.' in the domain, not ending in '.' |
| `Reglas.EmailSinArrobaUnica` | Validator/tests/tests.py:127-131 | a text with no '@' or with two is rejected |
| `Reglas.PalabraEmbebidaFalla` | Validator/tests/tests.py:30-55 | a banned word in any ASCII casing, embedded anywhere, makes the text fail |
| `Reglas.PalabrasInsensibleMayusculas` | Validator/tests/tests.py:48-52 | upper-casing a text never changes the banned-word verdict |
| `Reglas.LongitudExacta` | Validator/tests/tests.py:99-103 | with equal bounds the rule can be built and only that exact length passes |
| `Reglas.MensajeError` | Validator/tests/tests.py:105-111 | the length message contains both bounds as printed by `str`; the exact texts of all four messages (lines 60-63, 105-111, 151-152, 177-180) are stated by `CasoMensajes` and `CasosLongitud` |
| `Reglas.MensajeDeterminaRegla` | Validator/tests/tests.py:60-63 | the message identifies the rule: two rules with the same message are the same rule, across all four kinds and all bounds (messages of lines 60-63, 105-111, 151-152 and 177-180) |
| `Reglas.MensajeLongitudDeterminaCotas` | Validator/tests/tests.py:105-111 | the length message is built from the bounds: equal messages mean equal bounds |
| `Reglas.CasoTextoLimpio` | Validator/tests/tests.py:27-28 | "hola mundo" passes the banned-word rule |
| `Reglas.CasoTextoSinPalabras` | Validator/tests/tests.py:57-58 | "usuario normal de prueba" passes the banned-word rule |
| `Reglas.CasoContieneAdmin` | Validator/tests/tests.py:30-31 | "soy admin del sistema" fails |
| `Reglas.CasoContieneRoot` | Validator/tests/tests.py:33-34 | "acceso root" fails |
| `Reglas.CasoContieneHack` | Validator/tests/tests.py:36-37 | "voy a hackearte" fails (substring, not whole word) |
| `Reglas.CasoContieneDrop` | Validator/tests/tests.py:39-40 | "drop table usuarios" fails |
| `Reglas.CasoContieneSelect` | Validator/tests/tests.py:42-43 | "select * from tabla" fails |
| `Reglas.CasoContieneDelete` | Validator/tests/tests.py:45-46 | "delete all" fails |
| `Reglas.CasoMayusculas` | Validator/tests/tests.py:48-49 | "soy ADMIN" fails |
| `Reglas.CasoMayusculasMixtas` | Validator/tests/tests.py:51-52 | "soy AdMiN" fails |
| `Reglas.CasoPalabraSola` | Validator/tests/tests.py:54-55 | "admin" alone fails |
| `Reglas.CasosLongitud` | Validator/tests/tests.py:67-111 | the exercise's bounds errors; the rules the tests build pass through the checked constructor `CrearLongitud` and succeed; inclusive boundaries, empty text and the two exact messages |
| `Reglas.CasoEmailBasico` | Validator/tests/tests.py:118-119 | "user@example.com" is accepted |
| `Reglas.CasoEmailMinimo` | Validator/tests/tests.py:121-122 | "a@b.c" is accepted |
| `Reglas.CasoEmailSubdominio` | Validator/tests/tests.py:124-125 | "user@sub.example.com" is accepted |
| `Reglas.CasoEmailSinArroba` | Validator/tests/tests.py:127-128 | "userexample.com" is rejected |
| `Reglas.CasoEmailDosArrobas` | Validator/tests/tests.py:130-131 | "user@@example.com" is rejected |
| `Reglas.CasoEmailSinUsuario` | Validator/tests/tests.py:133-134 | "@example.com" is rejected |
| `Reglas.CasoEmailSinDominio` | Validator/tests/tests.py:136-137 | "user@" is rejected |
| `Reglas.CasoEmailSinPuntoEnDominio` | Validator/tests/tests.py:139-140 | "user@example" is rejected |
| `Reglas.CasoEmailExtensionVacia` | Validator/tests/tests.py:142-143 | "user@example." is rejected |
| `Reglas.CasoEmailSoloArroba` | Validator/tests/tests.py:145-146 | "@" is rejected |
| `Reglas.CasoEmailVacio` | Validator/tests/tests.py:148-149 | "" is rejected |
| `Reglas.CasoMensajes` | Validator/tests/tests.py:60-63 | the three fixed messages, word for word (also lines 151-152 and 177-180) |
| `Reglas.CasosNoEspacios` | Validator/tests/tests.py:159-175 | "sinespacio" and "" pass; internal, leading, trailing and all-space texts fail |
| `Validadores.Evaluar` | Validator/tests/tests.py:227-290 | the result's errors are the fold over the rules, and `es_valido` holds exactly when there is no error |
| `Validadores.IndicesFallidosCrecientes` | Validator/tests/tests.py:244-282 | the failing positions are in range and strictly increasing (registration order, one entry per rule) |
| `Validadores.IndicesFallidosExactos` | Validator/tests/tests.py:244-282 | a position is listed exactly when its rule rejects the value: every rule is evaluated |
| `Validadores.ErroresSonLasFallidas` | Validator/tests/tests.py:244-282 | the k-th error is the message of the k-th failing rule, and there are as many errors as failing rules |
| `Validadores.ErroresConcat` | Validator/tests/tests.py:244-277 | the errors of a concatenation of rule lists are the errors of each part, in order |
| `Validadores.ErroresVaciosSiiTodasPasan` | Validator/tests/tests.py:285-290 | no error exactly when every rule accepts the value; no rules means always valid |
| `Validadores.ErroresAcotados` | Validator/tests/tests.py:244-277 | never more errors than rules |
| `Validadores.ErroresDeLasTres` | Validator/tests/tests.py:244-282 | the three-rule validator reports length, banned words, whitespace, in that order |
| `Validadores.Validador.constructor` | Validator/tests/tests.py:223-224 | a new validator has no rules |
| `Validadores.Validador.AgregarRegla` | Validator/tests/tests.py:205-221 | a rule is appended at the end; anything else raises TypeError and leaves the list unchanged |
| `Validadores.Validador.CantidadReglas` | Validator/tests/tests.py:205-224 | the number of registered rules |
| `Validadores.Validador.Validar` | Validator/tests/tests.py:227-290 | the loop's result equals the fold over the rules, and `es_valido` holds exactly when every rule accepts |
| `Validadores.CasosUnaRegla` | Validator/tests/tests.py:228-241 | with only the whitespace rule, "sinespacio" is valid and "con espacio" gets one error that mentions "espacios" |
| `Validadores.CasoTodasPasan` | Validator/tests/tests.py:251-254 | "holaamigo" is valid with no errors |
| `Validadores.CasoUnaFalla` | Validator/tests/tests.py:256-260 | "ab" gets exactly the length error |
| `Validadores.CasoDosFallan` | Validator/tests/tests.py:262-266 | "a " gets the length and whitespace errors |
| `Validadores.CasoTodasFallan` | Validator/tests/tests.py:268-277 | "root " with minimum 7 gets all three errors |
| `Validadores.CasoPalabraProhibida` | Validator/tests/tests.py:279-282 | "eseadmin" gets only the banned-word error, whose message mentions "palabras prohibidas" |
| `Validadores.MensajesMencionanSuMotivo` | Validator/tests/tests.py:241 | the banned-word and whitespace messages contain the words the tests look for (also line 282) |
| `Validadores.CantidadTrasAgregar` | Validator/tests/tests.py:209-221 | three rules and one non-rule: TypeError for the latter, three rules kept |
| `Validadores.ValidadorVacio` | Validator/tests/tests.py:285-290 | a fresh validator has zero rules and accepts any value |
| `Registro.CrearEvento` | secure_log/tests/tests.py:18-75 | ValueError exactly for a type outside TIPOS_VALIDOS or a blank message; otherwise the getters return the given type, message and time |
| `Registro.FiltrarMiembros` | secure_log/tests/tests.py:146-162 | an event is in the filtered list exactly when it is in the log and has the requested type |
| `Registro.FiltrarConcat` | secure_log/tests/tests.py:146-162 | filtering keeps registration order: a concatenation filters part by part |
| `Registro.FiltrarAgregado` | secure_log/tests/tests.py:137-171 | registering one more event adds it to its own type's filter and to no other |
| `Registro.FiltrarAcotado` | secure_log/tests/tests.py:146-171 | a filter never holds more events than the log |
| `Registro.CantidadesPorTipoSuman` | secure_log/tests/tests.py:164-171 | the four per-type counts add up to the number of events |
| `Registro.FiltrarTipoInvalido` | secure_log/tests/tests.py:53-63 | no event ever has a type outside TIPOS_VALIDOS, so filtering on one finds nothing |
| `Registro.RegistradorSeguro.constructor` | secure_log/tests/tests.py:200-202 | a new log is empty |
| `Registro.RegistradorSeguro.Registrar` | secure_log/tests/tests.py:96-116 | true and the event appended for an event; false and nothing changed for anything else |
| `Registro.RegistradorSeguro.CantidadEventos` | secure_log/tests/tests.py:112-116 | the number of registered events |
| `Registro.RegistradorSeguro.ObtenerEventos` | secure_log/tests/tests.py:125-134 | the events in registration order |
| `Registro.RegistradorSeguro.FiltrarPorTipo` | secure_log/tests/tests.py:146-162 | the loop returns the filter of the log: exactly the events of that type, in order |
| `Registro.RegistradorSeguro.CantidadPorTipo` | secure_log/tests/tests.py:164-171 | the counting loop returns the length of the filter |
| `Registro.RegistradorSeguro.UltimoEvento` | secure_log/tests/tests.py:175-185 | None exactly on an empty log, otherwise the last event registered |
| `Registro.RegistradorSeguro.Limpiar` | secure_log/tests/tests.py:187-198 | the log is empty afterwards |
| `Registro.CasosEventoValido` | secure_log/tests/tests.py:18-49 | the four types build events whose getters give back type and message, for every type in TIPOS_VALIDOS |
| `Registro.CasosTipoInvalido` | secure_log/tests/tests.py:53-63 | "INVALIDO", "" and "login" raise ValueError |
| `Registro.CasosMensajeEnBlanco` | secure_log/tests/tests.py:65-75 | "", "   " and "\t\t" raise ValueError |
| `Registro.CasoRegistrar` | secure_log/tests/tests.py:100-116 | a non-event is refused; three events count three |
| `Registro.CasoObtenerCopia` | secure_log/tests/tests.py:128-134 | the handed-out sequence has two events and, being a value that cannot alias the log, rebinding it leaves the log with two |
| `Registro.PorTipoEnElCaso` | secure_log/tests/tests.py:137-171 | for LOGIN, LOGIN, ERROR, ALERTA, LOGOUT the filters hold 2, 1, 1 events and the ALERTA one |
| `Registro.CasoFiltrar` | secure_log/tests/tests.py:137-171 | through the class: 2 LOGIN, 1 ERROR, 1 LOGOUT, and the ALERTA event's message is "alerta 1" |
| `Registro.CasoFiltrarSinEventos` | secure_log/tests/tests.py:154-158 | a log with only a LOGIN event has no ERROR events |
| `Registro.CasoUltimoYLimpiar` | secure_log/tests/tests.py:174-198 | None on an empty log; the last of two is "segundo"/ERROR; after `limpiar` the count is 0 and there is no last event |

## Left out

- Only the two test suites are part of this model. The implementation modules `validador` and `log` are not part of it. The behaviour modelled is what the tests assert, and where they are silent, the natural reading of the exercise.
- Event timestamps are a `real` passed to `CrearEvento` (`ahora`), stored and returned unchanged. Wall-clock reads, the Python `float` type and the "recent timestamp" bounds are not modelled.
- The attribute-hiding checks (`hasattr` on tipo, mensaje, timestamp) are not modelled. In Dafny they are a matter of field visibility, not behaviour.
- User-defined subclasses of `Regla` are not modelled. `ReglaDef` is a closed set of the four rules of the exercise, so `Argumento.ArgRegla` can only hold one of them. The lemmas about `Errores` and `Validador.Validar` are stated for any sequence of these rules and do not use which rule is which, except through `Validar` and `MensajeError`.
- `Regla()` raising TypeError because the class is abstract is not modelled. `ReglaDef` has no constructor for a bare rule, so that value cannot be built.
- The runtime type checks of `agregar_regla` and `registrar` are modelled only as a single "something else" alternative. The model does not tell a string, None, a number and a dict apart.
- `str.lower()`, `str.upper()` and `str.isspace()` are restricted to ASCII:
  - lower/upper change only A-Z and a-z;
  - whitespace is space, 0x09-0x0D and 0x1C-0x1F.
  - Non-ASCII letters and Unicode spaces are treated as ordinary characters.
- The result of `validar` is the datatype `ResultadoValidacion`, not a `dict`. `errores` is a `seq<string>`, not a `list`. The checks that the result is a dict with the two keys and a list of errors hold by typing.
- `ObtenerEventos` returns a `seq`, which is a value. The copy cannot alias the log, so the copy test holds by construction. Python list identity and in-place `clear()` on the copy are not modelled.
- The unittest runner blocks at the end of both files are not modelled.

