/**
  The client screen: the form validator (a chain of field checks where the
  first failure decides the message and the last check is the cédula
  validator), the cédula-error text kept beside the form, and the local list
  update after a client has been edited.
 */
module ClientesPage {
  import opened Text
  import opened Wrappers
  import opened CedulaUtils

  const Estados: seq<string> := ["ACTIVO", "INACTIVO", "SUSPENDIDO"]

  /** The form: every field is text, as the inputs deliver it. */
  datatype ClientForm = ClientForm(
    nombre: string,
    apellido: string,
    email: string,
    telefono: string,
    direccion: string,
    dni: string,
    fechaNacimiento: string,
    estado: string)

  /** A client as the backend sends it; any field may be missing. */
  datatype Cliente = Cliente(
    id: int,
    nombre: Option<string>,
    apellido: Option<string>,
    email: Option<string>,
    telefono: Option<string>,
    direccion: Option<string>,
    dni: Option<string>,
    fechaNacimiento: Option<string>,
    estado: Option<string>)

  // ---------------------------------------------------------------------------
  // The e-mail pattern
  // ---------------------------------------------------------------------------

  /** The class `[^\s@]+`: non-empty, no whitespace, no `@`. */
  predicate IsEmailPart(s: string) {
    |s| > 0 && forall i :: 0 <= i < |s| ==> !IsWhitespace(s[i]) && s[i] != '@'
  }

  /**
    `/^[^\s@]+@[^\s@]+\.[^\s@]+$/.test(s)`: the text splits at an `@` and a
    later `.` into three parts of the class `[^\s@]+`.
   */
  predicate EmailRegexMatches(s: string) {
    exists at, dot ::
      0 <= at < dot < |s| && s[at] == '@' && s[dot] == '.'
      && IsEmailPart(s[..at]) && IsEmailPart(s[at + 1..dot]) && IsEmailPart(s[dot + 1..])
  }

  /** No whitespace anywhere, exactly one `@` with something before it, and after it a `.` with text on both sides. */
  predicate EmailShape(s: string) {
    (forall i :: 0 <= i < |s| ==> !IsWhitespace(s[i]))
    && exists at :: 0 < at < |s| && s[at] == '@'
         && (forall j :: 0 <= j < |s| && s[j] == '@' ==> j == at)
         && exists dot :: at + 1 < dot < |s| - 1 && s[dot] == '.'
  }

  /** A non-empty stretch of text free of whitespace and `@` belongs to the class `[^\s@]+`. */
  lemma CleanSliceIsEmailPart(s: string, lo: nat, hi: nat)
    requires lo < hi <= |s|
    requires forall i :: lo <= i < hi ==> !IsWhitespace(s[i]) && s[i] != '@'
    ensures IsEmailPart(s[lo..hi])
  {
    forall k | 0 <= k < hi - lo ensures !IsWhitespace(s[lo..hi][k]) && s[lo..hi][k] != '@' {
      assert s[lo..hi][k] == s[lo + k];
    }
  }

  lemma EmailRegexSound(s: string)
    requires EmailRegexMatches(s)
    ensures EmailShape(s)
  {
    var at, dot :|
      0 <= at < dot < |s| && s[at] == '@' && s[dot] == '.'
      && IsEmailPart(s[..at]) && IsEmailPart(s[at + 1..dot]) && IsEmailPart(s[dot + 1..]);
    forall i | 0 <= i < |s| ensures !IsWhitespace(s[i]) && (s[i] == '@' ==> i == at) {
      if i < at {
        assert s[i] == s[..at][i];
      } else if at < i < dot {
        assert s[i] == s[at + 1..dot][i - at - 1];
      } else if dot < i {
        assert s[i] == s[dot + 1..][i - dot - 1];
      }
    }
    assert at + 1 < dot < |s| - 1;
  }

  lemma EmailRegexComplete(s: string)
    requires EmailShape(s)
    ensures EmailRegexMatches(s)
  {
    var at :| 0 < at < |s| && s[at] == '@'
       && (forall j :: 0 <= j < |s| && s[j] == '@' ==> j == at)
       && exists dot :: at + 1 < dot < |s| - 1 && s[dot] == '.';
    var dot :| at + 1 < dot < |s| - 1 && s[dot] == '.';
    CleanSliceIsEmailPart(s, 0, at);
    assert s[..at] == s[0..at];
    CleanSliceIsEmailPart(s, at + 1, dot);
    CleanSliceIsEmailPart(s, dot + 1, |s|);
    assert s[dot + 1..] == s[dot + 1..|s|];
  }

  /**
    What the pattern accepts, said plainly: no whitespace anywhere, exactly one
    `@`, something before it, and after it a `.` with text on both sides.
   */
  lemma EmailRegexCharacterization(s: string)
    ensures EmailRegexMatches(s) <==> EmailShape(s)
  {
    if EmailRegexMatches(s) {
      EmailRegexSound(s);
    }
    if EmailShape(s) {
      EmailRegexComplete(s);
    }
  }

  // ---------------------------------------------------------------------------
  // validateForm
  // ---------------------------------------------------------------------------

  /** The outcomes of the checks, in the order the validator runs them. */
  datatype FormError =
    | NombreObligatorio | NombreLargo
    | ApellidoObligatorio | ApellidoLargo
    | EmailObligatorio | EmailLargo | EmailFormato
    | TelefonoObligatorio | TelefonoDigitos
    | DireccionLarga
    | CedulaObligatoria | CedulaDigitos | CedulaInvalida
    | EstadoObligatorio

  /** The position of each check in the order the validator runs them. */
  function Rank(e: FormError): nat {
    match e
    case NombreObligatorio => 0
    case NombreLargo => 1
    case ApellidoObligatorio => 2
    case ApellidoLargo => 3
    case EmailObligatorio => 4
    case EmailLargo => 5
    case EmailFormato => 6
    case TelefonoObligatorio => 7
    case TelefonoDigitos => 8
    case DireccionLarga => 9
    case CedulaObligatoria => 10
    case CedulaDigitos => 11
    case CedulaInvalida => 12
    case EstadoObligatorio => 13
  }

  /** The text shown for each failed check. */
  function Message(e: FormError): string {
    match e
    case NombreObligatorio => "El nombre es obligatorio"
    case NombreLargo => "El nombre no puede exceder 100 caracteres"
    case ApellidoObligatorio => "El apellido es obligatorio"
    case ApellidoLargo => "El apellido no puede exceder 100 caracteres"
    case EmailObligatorio => "El email es obligatorio"
    case EmailLargo => "El email no puede exceder 150 caracteres"
    case EmailFormato => "El formato del email no es válido"
    case TelefonoObligatorio => "El teléfono es obligatorio"
    case TelefonoDigitos => "El teléfono debe tener 10 dígitos"
    case DireccionLarga => "La dirección no puede exceder 200 caracteres"
    case CedulaObligatoria => "La Cédula es obligatoria"
    case CedulaDigitos => "La Cédula debe tener 10 dígitos"
    case CedulaInvalida => "La Cédula no es válida"
    case EstadoObligatorio => "El estado es obligatorio"
  }

  /** `!s.trim()` */
  predicate IsBlank(s: string) {
    Trim(s) == []
  }

  /** `validateForm`: the first failing check decides; `None` (null) when all pass. The reported check does fail. */
  function ValidateForm(f: ClientForm): (r: Option<FormError>)
    ensures r.Some? ==> Fails(f, r.value)
  {
    BlankFieldsAreAllWhitespace(f);
    if IsBlank(f.nombre) then Some(NombreObligatorio)
    else if |f.nombre| > 100 then Some(NombreLargo)
    else if IsBlank(f.apellido) then Some(ApellidoObligatorio)
    else if |f.apellido| > 100 then Some(ApellidoLargo)
    else if IsBlank(f.email) then Some(EmailObligatorio)
    else if |f.email| > 150 then Some(EmailLargo)
    else if !EmailRegexMatches(f.email) then Some(EmailFormato)
    else if IsBlank(f.telefono) then Some(TelefonoObligatorio)
    else if !IsTenDigits(f.telefono) then Some(TelefonoDigitos)
    else if f.direccion != [] && |f.direccion| > 200 then Some(DireccionLarga)
    else if IsBlank(f.dni) then Some(CedulaObligatoria)
    else if !IsTenDigits(f.dni) then Some(CedulaDigitos)
    else if !CedulaValida(f.dni) then Some(CedulaInvalida)
    else if f.estado == [] then Some(EstadoObligatorio)
    else None
  }

  /** Each check on its own: does the form fail it? */
  predicate Fails(f: ClientForm, e: FormError) {
    match e
    case NombreObligatorio => AllWhitespace(f.nombre)
    case NombreLargo => |f.nombre| > 100
    case ApellidoObligatorio => AllWhitespace(f.apellido)
    case ApellidoLargo => |f.apellido| > 100
    case EmailObligatorio => AllWhitespace(f.email)
    case EmailLargo => |f.email| > 150
    case EmailFormato => !EmailRegexMatches(f.email)
    case TelefonoObligatorio => AllWhitespace(f.telefono)
    case TelefonoDigitos => !IsTenDigits(f.telefono)
    case DireccionLarga => |f.direccion| > 200
    case CedulaObligatoria => AllWhitespace(f.dni)
    case CedulaDigitos => !IsTenDigits(f.dni)
    case CedulaInvalida => !CedulaValida(f.dni)
    case EstadoObligatorio => f.estado == []
  }

  /** The conditions a form must meet to be sent, stated field by field. */
  predicate FormAcceptable(f: ClientForm) {
    && !AllWhitespace(f.nombre) && |f.nombre| <= 100
    && !AllWhitespace(f.apellido) && |f.apellido| <= 100
    && !AllWhitespace(f.email) && |f.email| <= 150 && EmailRegexMatches(f.email)
    && IsTenDigits(f.telefono)
    && |f.direccion| <= 200
    && CedulaValida(f.dni)
    && f.estado != []
  }

  lemma BlankFieldsAreAllWhitespace(f: ClientForm)
    ensures IsBlank(f.nombre) == AllWhitespace(f.nombre)
    ensures IsBlank(f.apellido) == AllWhitespace(f.apellido)
    ensures IsBlank(f.email) == AllWhitespace(f.email)
    ensures IsBlank(f.telefono) == AllWhitespace(f.telefono)
    ensures IsBlank(f.dni) == AllWhitespace(f.dni)
  {
    TrimEmptyIffAllWhitespace(f.nombre);
    TrimEmptyIffAllWhitespace(f.apellido);
    TrimEmptyIffAllWhitespace(f.email);
    TrimEmptyIffAllWhitespace(f.telefono);
    TrimEmptyIffAllWhitespace(f.dni);
  }

  /** Ten digits are never blank. */
  lemma TenDigitsNotBlank(s: string)
    requires IsTenDigits(s)
    ensures !AllWhitespace(s)
  {
    assert IsDigit(s[0]);
  }

  /** `validateForm` returns null exactly when the form meets every condition. */
  lemma ValidateFormAcceptsExactly(f: ClientForm)
    ensures ValidateForm(f) == None <==> FormAcceptable(f)
  {
    BlankFieldsAreAllWhitespace(f);
    if ValidateForm(f) == None {
      assert !AllWhitespace(f.nombre) && |f.nombre| <= 100;
      assert !AllWhitespace(f.apellido) && |f.apellido| <= 100;
      assert !AllWhitespace(f.email) && |f.email| <= 150 && EmailRegexMatches(f.email);
      assert IsTenDigits(f.telefono) && |f.direccion| <= 200;
      assert CedulaValida(f.dni) && f.estado != [];
    }
    if FormAcceptable(f) {
      TenDigitsNotBlank(f.telefono);
      TenDigitsNotBlank(f.dni);
      assert !IsBlank(f.telefono) && !IsBlank(f.dni);
    }
  }

  /**
    First failure wins: a check is reported exactly when it fails and every
    check that runs before it passes.
   */
  lemma ValidateFormFirstFailure(f: ClientForm, e: FormError)
    ensures ValidateForm(f) == Some(e) <==>
      Fails(f, e) && forall e' :: Rank(e') < Rank(e) ==> !Fails(f, e')
  {
    BlankFieldsAreAllWhitespace(f);
    match ValidateForm(f)
    case None =>
      forall e' ensures !Fails(f, e') {
        NoneMeansNoFailure(f, e');
      }
    case Some(r) =>
      ReportedCheckIsFirstFailure(f, r);
      assert Rank(r) == Rank(e) ==> r == e;
  }

  lemma NoneMeansNoFailure(f: ClientForm, e: FormError)
    requires ValidateForm(f) == None
    ensures !Fails(f, e)
  {
    BlankFieldsAreAllWhitespace(f);
    match e
    case NombreObligatorio =>
    case NombreLargo =>
    case ApellidoObligatorio =>
    case ApellidoLargo =>
    case EmailObligatorio =>
    case EmailLargo =>
    case EmailFormato =>
    case TelefonoObligatorio =>
    case TelefonoDigitos =>
    case DireccionLarga =>
    case CedulaObligatoria =>
    case CedulaDigitos =>
    case CedulaInvalida =>
    case EstadoObligatorio =>
  }

  lemma ReportedCheckIsFirstFailure(f: ClientForm, e: FormError)
    requires ValidateForm(f) == Some(e)
    ensures Fails(f, e) && forall e' :: Rank(e') < Rank(e) ==> !Fails(f, e')
  {
    BlankFieldsAreAllWhitespace(f);
    forall e' | Rank(e') < Rank(e) ensures !Fails(f, e') {
      match e'
      case NombreObligatorio =>
      case NombreLargo =>
      case ApellidoObligatorio =>
      case ApellidoLargo =>
      case EmailObligatorio =>
      case EmailLargo =>
      case EmailFormato =>
      case TelefonoObligatorio =>
      case TelefonoDigitos =>
      case DireccionLarga =>
      case CedulaObligatoria =>
      case CedulaDigitos =>
      case CedulaInvalida =>
      case EstadoObligatorio =>
    }
  }

  /** An invalid cédula is reported only when every earlier field is in order. */
  lemma CedulaInvalidaReportedLast(f: ClientForm)
    requires ValidateForm(f) == Some(CedulaInvalida)
    ensures !AllWhitespace(f.nombre) && |f.nombre| <= 100
    ensures !AllWhitespace(f.apellido) && |f.apellido| <= 100
    ensures EmailRegexMatches(f.email) && |f.email| <= 150
    ensures IsTenDigits(f.telefono) && |f.direccion| <= 200
    ensures IsTenDigits(f.dni) && !CedulaValida(f.dni)
  {
    BlankFieldsAreAllWhitespace(f);
  }

  /**
    Blankness is judged on the trimmed text but length on the raw text: a name
    whose trimmed form fits in 100 characters is still refused as too long.
   */
  lemma LengthLimitCountsUntrimmedText(f: ClientForm)
    requires !AllWhitespace(f.nombre) && |Trim(f.nombre)| <= 100 < |f.nombre|
    ensures ValidateForm(f) == Some(NombreLargo)
  {
    BlankFieldsAreAllWhitespace(f);
  }

  /**
    What `validateForm` returns: the text of the first failed check, or null.
    Every text is non-empty, so the callers' `if (validationError)` stops
    exactly the forms that fail a check.
   */
  function ValidateFormMessage(f: ClientForm): (m: Option<string>)
    ensures m.None? <==> FormAcceptable(f)
    ensures m.Some? ==> m.value != []
  {
    ValidateFormAcceptsExactly(f);
    match ValidateForm(f)
    case None => None
    case Some(e) => Some(Message(e))
  }

  /** Reads the check back from its text, by the text's length and fourth character. */
  function CheckOfMessage(m: string): nat {
    match |m|
    case 22 => 12
    case 23 => 4
    case 24 => if m[3] == 'n' then 0 else if m[3] == 'C' then 10 else 13
    case 26 => if m[3] == 'a' then 2 else 7
    case 31 => 11
    case 33 => if m[3] == 'f' then 6 else 8
    case 40 => 5
    case 41 => 1
    case 43 => 3
    case 44 => 9
    case _ => 14
  }

  lemma CheckOfMessageIsRank(e: FormError)
    ensures CheckOfMessage(Message(e)) == Rank(e)
  {
    match e
    case NombreObligatorio =>
    case NombreLargo =>
    case ApellidoObligatorio =>
    case ApellidoLargo =>
    case EmailObligatorio =>
    case EmailLargo =>
    case EmailFormato =>
    case TelefonoObligatorio =>
    case TelefonoDigitos =>
    case DireccionLarga =>
    case CedulaObligatoria =>
    case CedulaDigitos =>
    case CedulaInvalida =>
    case EstadoObligatorio =>
  }

  /** The returned text names the failed check: no two checks share a text. */
  lemma MessageInjective(e: FormError, e': FormError)
    requires Message(e) == Message(e')
    ensures e == e'
  {
    CheckOfMessageIsRank(e);
    CheckOfMessageIsRank(e');
  }

  // ---------------------------------------------------------------------------
  // The cédula error beside the form
  // ---------------------------------------------------------------------------

  datatype Field = Nombre | Apellido | Email | Telefono | Direccion | Dni | FechaNacimiento | Estado

  function Get(f: ClientForm, name: Field): string {
    match name
    case Nombre => f.nombre
    case Apellido => f.apellido
    case Email => f.email
    case Telefono => f.telefono
    case Direccion => f.direccion
    case Dni => f.dni
    case FechaNacimiento => f.fechaNacimiento
    case Estado => f.estado
  }

  /** `{ ...form, [name]: value }`: the named field takes the value, the others keep theirs. */
  function SetField(f: ClientForm, name: Field, value: string): (r: ClientForm)
    ensures Get(r, name) == value
    ensures forall other :: other != name ==> Get(r, other) == Get(f, other)
  {
    match name
    case Nombre => f.(nombre := value)
    case Apellido => f.(apellido := value)
    case Email => f.(email := value)
    case Telefono => f.(telefono := value)
    case Direccion => f.(direccion := value)
    case Dni => f.(dni := value)
    case FechaNacimiento => f.(fechaNacimiento := value)
    case Estado => f.(estado := value)
  }

  /** The form and the cédula error text shown under it. */
  datatype EditorState = EditorState(form: ClientForm, cedulaError: string)

  /**
    `handleChange`: the named field takes the new value; only a change to the
    cédula recomputes the cédula error, from the new value.
   */
  function HandleChange(st: EditorState, name: Field, value: string): (r: EditorState)
    ensures Get(r.form, name) == value
    ensures forall other :: other != name ==> Get(r.form, other) == Get(st.form, other)
    ensures name != Dni ==> r.cedulaError == st.cedulaError
    ensures name == Dni ==> r.cedulaError == ValidarCedulaConMensaje(value)
    ensures name == Dni ==> (r.cedulaError == [] <==> value == [] || CedulaValida(value))
  {
    EditorState(
      SetField(st.form, name, value),
      if name == Dni then ValidarCedulaConMensaje(value) else st.cedulaError)
  }

  /** `cli.field || ""` */
  function OrEmpty(o: Option<string>): string {
    match o
    case None => ""
    case Some(v) => v
  }

  /** `cli.estado || estados[0]`: a missing or empty state becomes "ACTIVO". */
  function OrDefault(o: Option<string>, default: string): string {
    match o
    case Some(v) => if v == [] then default else v
    case None => default
  }

  /**
    `openEditModal`: the form is filled from the client (missing fields become
    empty, a missing state "ACTIVO"); the birth date arrives already converted
    for the date input. The cédula error is "La Cédula no es válida" exactly
    when the cédula has ten characters and the validator rejects it, and is
    cleared otherwise.
   */
  function OpenEditModal(cli: Cliente, fechaParaInput: string): (r: EditorState)
    ensures r.form.nombre == OrEmpty(cli.nombre) && r.form.apellido == OrEmpty(cli.apellido)
    ensures r.form.email == OrEmpty(cli.email) && r.form.telefono == OrEmpty(cli.telefono)
    ensures r.form.direccion == OrEmpty(cli.direccion) && r.form.dni == OrEmpty(cli.dni)
    ensures r.form.fechaNacimiento == fechaParaInput
    ensures cli.estado.Some? && cli.estado.value != [] ==> r.form.estado == cli.estado.value
    ensures cli.estado.None? || cli.estado.value == [] ==> r.form.estado == Estados[0]
    ensures r.cedulaError in {"", MsgInvalida}
    ensures r.cedulaError == MsgInvalida <==> |r.form.dni| == 10 && !CedulaValida(r.form.dni)
  {
    var form := ClientForm(
      OrEmpty(cli.nombre), OrEmpty(cli.apellido), OrEmpty(cli.email), OrEmpty(cli.telefono),
      OrEmpty(cli.direccion), OrEmpty(cli.dni), fechaParaInput, OrDefault(cli.estado, Estados[0]));
    var cedulaError :=
      if form.dni != [] && |form.dni| == 10 then
        (if !CedulaValida(form.dni) then MsgInvalida else "")
      else "";
    EditorState(form, cedulaError)
  }

  /**
    On a ten-character cédula, opening the editor and typing the same cédula
    agree on whether there is an error; on any other length the editor opens
    without one even though typing it would report one.
   */
  lemma OpenEditAgreesWithTyping(cli: Cliente, fecha: string, st: EditorState)
    ensures var dni := OrEmpty(cli.dni);
      |dni| == 10 ==>
        (OpenEditModal(cli, fecha).cedulaError == [] <==> HandleChange(st, Dni, dni).cedulaError == [])
    ensures var dni := OrEmpty(cli.dni);
      |dni| != 10 ==>
        OpenEditModal(cli, fecha).cedulaError == []
        && (dni != [] ==> HandleChange(st, Dni, dni).cedulaError != [])
  {
  }

  // ---------------------------------------------------------------------------
  // The list update after an edit
  // ---------------------------------------------------------------------------

  /**
    `clientes.map(c => c.id === id ? actualizado : c)`: same length and order,
    the elements with the edited id replaced, every other element kept.
   */
  function ReplaceById(clientes: seq<Cliente>, id: int, actualizado: Cliente): (r: seq<Cliente>)
    ensures |r| == |clientes|
    ensures forall i :: 0 <= i < |r| ==> r[i] == if clientes[i].id == id then actualizado else clientes[i]
  {
    if clientes == [] then []
    else [if clientes[0].id == id then actualizado else clientes[0]] + ReplaceById(clientes[1..], id, actualizado)
  }

  /** When no client has the id, the list is unchanged. */
  lemma ReplaceByIdAbsent(clientes: seq<Cliente>, id: int, actualizado: Cliente)
    requires forall i :: 0 <= i < |clientes| ==> clientes[i].id != id
    ensures ReplaceById(clientes, id, actualizado) == clientes
  {
  }

  /** Applying the same update twice gives the same list as applying it once. */
  lemma ReplaceByIdIdempotent(clientes: seq<Cliente>, id: int, actualizado: Cliente)
    ensures ReplaceById(ReplaceById(clientes, id, actualizado), id, actualizado)
         == ReplaceById(clientes, id, actualizado)
  {
  }
}
