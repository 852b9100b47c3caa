/**
  Validation, formatting and classification of Ecuadorian national identity
  numbers (cédulas): ten decimal digits whose last digit is a modulus-10 check
  digit over the first nine, weighted 2,1,2,1,… with two-digit products
  replaced by the sum of their digits.
 */
module CedulaUtils {
  import opened Text
  import opened Wrappers

  // ---------------------------------------------------------------------------
  // The checksum
  // ---------------------------------------------------------------------------

  /** The weights of positions 0 to 8. */
  const Coeficientes: seq<nat> := [2, 1, 2, 1, 2, 1, 2, 1, 2]

  /** A product above 9 is replaced by the sum of its two digits. */
  function ReduceProduct(producto: nat): nat
    requires producto <= 18
  {
    if producto > 9 then producto / 10 + producto % 10 else producto
  }

  /** The reduced term a digit contributes at position `i`; always a single digit. */
  function Term(c: char, i: nat): (t: nat)
    requires IsDigit(c) && i < 9
    ensures t <= 9
  {
    ReduceProduct(DigitValue(c) * Coeficientes[i])
  }

  /**
    The sum `suma` of the reduced terms of the digits in `p`, read from
    position 0: at most 9 per position.
   */
  function WeightedSum(p: string): (suma: nat)
    requires |p| <= 9 && AllDigits(p)
    ensures suma <= 9 * |p|
  {
    if p == [] then 0 else WeightedSum(p[..|p| - 1]) + Term(p[|p| - 1], |p| - 1)
  }

  /** The check digit that nine digits call for. */
  function ExpectedCheckDigit(p: string): (d: nat)
    requires |p| == 9 && AllDigits(p)
    ensures d <= 9
  {
    var residuo := WeightedSum(p) % 10;
    if residuo == 0 then 0 else 10 - residuo
  }

  /** `/^(\d)\1{9}$/.test(s)`: ten copies of one digit. */
  predicate IsRepeatedDigits(s: string) {
    |s| == 10 && IsDigit(s[0]) && forall i :: 0 <= i < 10 ==> s[i] == s[0]
  }

  /** The verdict of `validarCedulaEcuatoriana`, as a function of the text. */
  predicate CedulaValida(s: string) {
    IsTenDigits(s) && !IsRepeatedDigits(s) && DigitValue(s[9]) == ExpectedCheckDigit(s[..9])
  }

  /**
    `validarCedulaEcuatoriana`: rejects anything but ten digits, then ten copies
    of one digit, then accumulates the weighted sum position by position and
    compares the last digit with the check digit it calls for.
   */
  method ValidarCedulaEcuatoriana(cedula: string) returns (valida: bool)
    ensures valida == CedulaValida(cedula)
    ensures valida ==> IsTenDigits(cedula) && !IsRepeatedDigits(cedula)
  {
    if !IsTenDigits(cedula) {
      return false;
    }
    if IsRepeatedDigits(cedula) {
      return false;
    }
    var verificador := DigitValue(cedula[9]);
    var suma := 0;
    for i := 0 to 9
      invariant suma == WeightedSum(cedula[..i])
    {
      assert cedula[..i + 1][..i] == cedula[..i];
      var producto := DigitValue(cedula[i]) * Coeficientes[i];
      if producto > 9 {
        producto := producto / 10 + producto % 10;
      }
      suma := suma + producto;
    }
    var residuo := suma % 10;
    var digitoEsperado := if residuo == 0 then 0 else 10 - residuo;
    return verificador == digitoEsperado;
  }

  // ---------------------------------------------------------------------------
  // Properties of the checksum
  // ---------------------------------------------------------------------------

  /** No string of ten equal digits is a valid cédula. */
  lemma RepeatedDigitsRejected(d: char)
    requires IsDigit(d)
    ensures !CedulaValida(Repeat(d, 10))
  {
    assert IsRepeatedDigits(Repeat(d, 10));
  }

  /** "0000000000" satisfies the checksum; only the repeated-digit rule rejects it. */
  lemma ZerosPassChecksum()
    ensures IsTenDigits(Repeat('0', 10))
    ensures DigitValue(Repeat('0', 10)[9]) == ExpectedCheckDigit(Repeat('0', 10)[..9])
    ensures !CedulaValida(Repeat('0', 10))
  {
    var z := Repeat('0', 10);
    ZeroSum(z[..9]);
    RepeatedDigitsRejected('0');
  }

  lemma {:induction false} ZeroSum(p: string)
    requires |p| <= 9 && forall i :: 0 <= i < |p| ==> p[i] == '0'
    ensures AllDigits(p) && WeightedSum(p) == 0
  {
    if p != [] {
      ZeroSum(p[..|p| - 1]);
    }
  }

  /**
    The modulus-10 reading of the checksum: for ten digits that are not all
    equal, the cédula is valid exactly when the last digit is
    (10 - S mod 10) mod 10, or equivalently when S plus the last digit is a
    multiple of ten, where S <= 81 is the weighted sum of the first nine.
   */
  lemma CheckDigitCharacterization(s: string)
    requires IsTenDigits(s) && !IsRepeatedDigits(s)
    ensures WeightedSum(s[..9]) <= 81
    ensures CedulaValida(s) <==> DigitValue(s[9]) == (10 - WeightedSum(s[..9]) % 10) % 10
    ensures CedulaValida(s) <==> (WeightedSum(s[..9]) + DigitValue(s[9])) % 10 == 0
  {
    CheckDigitArithmetic(WeightedSum(s[..9]), DigitValue(s[9]));
  }

  /** The two readings of the check digit agree for any sum and any digit. */
  lemma CheckDigitArithmetic(sum: nat, d: nat)
    requires d <= 9
    ensures d == (if sum % 10 == 0 then 0 else 10 - sum % 10) <==> d == (10 - sum % 10) % 10
    ensures d == (if sum % 10 == 0 then 0 else 10 - sum % 10) <==> (sum + d) % 10 == 0
  {
    var r := sum % 10;
    assert sum == 10 * (sum / 10) + r;
    LastDigitOfSum(sum / 10, r + d);
    assert (r + d) % 10 == 0 <==> r + d == 0 || r + d == 10;
  }

  lemma LastDigitOfSum(q: int, x: nat)
    ensures (10 * q + x) % 10 == x % 10
  {
  }

  /** Nine digits admit at most one final digit: two valid cédulas that share them are equal. */
  lemma CheckDigitUnique(s: string, t: string)
    requires CedulaValida(s) && CedulaValida(t)
    requires s[..9] == t[..9]
    ensures s == t
  {
    assert s[9] == t[9];
    assert s == s[..9] + [s[9]] && t == t[..9] + [t[9]];
  }

  /** Changing only the check digit of a valid cédula makes it invalid. */
  lemma ChangedCheckDigitRejected(s: string, c: char)
    requires CedulaValida(s) && IsDigit(c) && c != s[9]
    ensures !CedulaValida(s[9 := c])
  {
    var t := s[9 := c];
    if CedulaValida(t) {
      assert s[..9] == t[..9];
      CheckDigitUnique(s, t);
      assert false;
    }
  }

  /** At each position, different digits contribute different terms. */
  lemma TermInjective(c: char, d: char, i: nat)
    requires IsDigit(c) && IsDigit(d) && i < 9 && c != d
    ensures Term(c, i) != Term(d, i)
  {
    var x, y := DigitValue(c), DigitValue(d);
    assert x != y;
    if Coeficientes[i] == 2 {
      assert ReduceProduct(2 * x) == if x >= 5 then 2 * x - 9 else 2 * x;
      assert ReduceProduct(2 * y) == if y >= 5 then 2 * y - 9 else 2 * y;
    } else {
      assert Coeficientes[i] == 1;
    }
  }

  /** Replacing the digit at position i changes the sum by exactly the change of its term. */
  lemma {:induction false} WeightedSumUpdate(p: string, i: nat, c: char)
    requires |p| <= 9 && AllDigits(p) && IsDigit(c) && i < |p|
    ensures AllDigits(p[i := c])
    ensures WeightedSum(p[i := c]) - WeightedSum(p) == Term(c, i) - Term(p[i], i)
  {
    var q := p[i := c];
    var n := |p|;
    if i < n - 1 {
      assert q[..n - 1] == p[..n - 1][i := c];
      WeightedSumUpdate(p[..n - 1], i, c);
    } else {
      assert q[..n - 1] == p[..n - 1];
    }
  }

  lemma SmallShiftBreaksMultiple(a: int, d: int)
    requires a % 10 == 0 && -9 <= d <= 9 && d != 0
    ensures (a + d) % 10 != 0
  {
    var q := a / 10;
    assert a == 10 * q;
    if d > 0 {
      assert (10 * q + d) % 10 == d;
    } else {
      assert 10 * q + d == 10 * (q - 1) + (10 + d);
      assert (10 * (q - 1) + (10 + d)) % 10 == 10 + d;
    }
  }

  /**
    The check digit catches every single-digit error: replacing any one of the
    first nine digits of a valid cédula by a different digit gives an invalid one.
   */
  lemma SingleDigitErrorDetected(s: string, i: nat, c: char)
    requires CedulaValida(s) && i < 9 && IsDigit(c) && c != s[i]
    ensures !CedulaValida(s[i := c])
  {
    var t := s[i := c];
    assert t[..9] == s[..9][i := c];
    WeightedSumUpdate(s[..9], i, c);
    TermInjective(c, s[i], i);
    var d := WeightedSum(t[..9]) - WeightedSum(s[..9]);
    assert -9 <= d <= 9 && d != 0;
    if CedulaValida(t) {
      CheckDigitCharacterization(s);
      CheckDigitCharacterization(t);
      var v := DigitValue(s[9]);
      assert t[9] == s[9];
      assert (WeightedSum(s[..9]) + v) % 10 == 0 && (WeightedSum(s[..9]) + v + d) % 10 == 0;
      SmallShiftBreaksMultiple(WeightedSum(s[..9]) + v, d);
      assert false;
    }
  }

  /** The weighted sum of nine digits written out term by term. */
  lemma WeightedSumOfNine(p: string)
    requires |p| == 9 && AllDigits(p)
    ensures WeightedSum(p) == Term(p[0], 0) + Term(p[1], 1) + Term(p[2], 2) + Term(p[3], 3)
      + Term(p[4], 4) + Term(p[5], 5) + Term(p[6], 6) + Term(p[7], 7) + Term(p[8], 8)
  {
    assert p[..9] == p;
    forall k | 1 <= k <= 9
      ensures WeightedSum(p[..k]) == WeightedSum(p[..k - 1]) + Term(p[k - 1], k - 1)
    {
      assert p[..k][..k - 1] == p[..k - 1];
    }
    assert p[..0] == [];
  }

  lemma SumOfFirstVector()
    ensures WeightedSum("171003406") == 25
  {
    WeightedSumOfNine("171003406");
    assert Term('1', 0) == 2 && Term('7', 1) == 7 && Term('1', 2) == 2;
    assert Term('0', 3) == 0 && Term('0', 4) == 0 && Term('3', 5) == 3;
    assert Term('4', 6) == 8 && Term('0', 7) == 0 && Term('6', 8) == 3;
  }

  lemma SumOfSecondVector()
    ensures WeightedSum("092668785") == 44
  {
    WeightedSumOfNine("092668785");
    assert Term('0', 0) == 0 && Term('9', 1) == 9 && Term('2', 2) == 4;
    assert Term('6', 3) == 6 && Term('6', 4) == 3 && Term('8', 5) == 8;
    assert Term('7', 6) == 5 && Term('8', 7) == 8 && Term('5', 8) == 1;
  }

  /** Two vectors: "1710034065" is valid, and with its last digit raised by one it is not. */
  lemma KnownVectors()
    ensures CedulaValida("1710034065")
    ensures !CedulaValida("1710034066")
  {
    var s := "1710034065";
    assert !IsRepeatedDigits(s) by { assert s[1] != s[0]; }
    assert s[..9] == "171003406";
    SumOfFirstVector();
    ChangedCheckDigitRejected(s, '6');
    assert s[9 := '6'] == "1710034066";
  }

  // ---------------------------------------------------------------------------
  // Formatting
  // ---------------------------------------------------------------------------

  /**
    `formatearCedula`: ten characters are shown as 2-7-1 groups separated by
    hyphens; any other text is returned as it came. Deleting the two hyphens
    gives the input back.
   */
  function FormatearCedula(cedula: string): (r: string)
    ensures |cedula| != 10 ==> r == cedula
    ensures |cedula| == 10 ==> |r| == 12 && r[2] == '-' && r[10] == '-'
    ensures |cedula| == 10 ==> r[..2] + r[3..10] + r[11..] == cedula
  {
    if cedula == [] || |cedula| != 10 then
      cedula
    else
      var r := cedula[..2] + "-" + cedula[2..9] + "-" + cedula[9..];
      assert r[..2] + r[3..10] + r[11..] == cedula[..2] + cedula[2..9] + cedula[9..];
      assert cedula[..2] + cedula[2..9] + cedula[9..] == cedula;
      r
  }

  /** A formatted cédula has twelve characters, so formatting it again leaves it alone. */
  lemma FormatearCedulaIdempotent(cedula: string)
    ensures FormatearCedula(FormatearCedula(cedula)) == FormatearCedula(cedula)
  {
  }

  /** A ten-digit cédula shown in groups of two, seven and one. */
  lemma FormatearCedulaExample()
    ensures FormatearCedula("1710034065") == "17-1003406-5"
  {
    var s := "1710034065";
    assert s[..2] == "17" && s[2..9] == "1003406" && s[9..] == "5";
  }

  // ---------------------------------------------------------------------------
  // Classification by first digit
  // ---------------------------------------------------------------------------

  const TipoIdentidad: string := "Cédula de Identidad"
  const TipoExtranjero: string := "Cédula de Extranjero"
  const TipoInvalida: string := "Inválida"

  /** `parseInt` of a single character: its value when it is a digit, nothing (NaN) otherwise. */
  function ParseDigit(c: char): (r: Option<nat>)
    ensures r.Some? <==> IsDigit(c)
    ensures r.Some? ==> r.value == DigitValue(c)
  {
    if IsDigit(c) then Some(DigitValue(c)) else None
  }

  /**
    `obtenerTipoCedula`: looks at the length and the first character only;
    1 and 2 are identity cards, 3 to 9 foreigners' cards, and 0, a non-digit
    or a wrong length are "Inválida".
   */
  function ObtenerTipoCedula(cedula: string): (tipo: string)
    ensures |cedula| != 10 ==> tipo == TipoInvalida
    ensures |cedula| == 10 ==>
      tipo == (if '1' <= cedula[0] <= '2' then TipoIdentidad
               else if '3' <= cedula[0] <= '9' then TipoExtranjero
               else TipoInvalida)
  {
    if cedula == [] || |cedula| != 10 then
      TipoInvalida
    else
      match ParseDigit(cedula[0])
      case Some(1) => TipoIdentidad
      case Some(2) => TipoIdentidad
      case Some(3) => TipoExtranjero
      case Some(4) => TipoExtranjero
      case Some(5) => TipoExtranjero
      case Some(6) => TipoExtranjero
      case Some(7) => TipoExtranjero
      case Some(8) => TipoExtranjero
      case Some(9) => TipoExtranjero
      case _ => TipoInvalida
  }

  /** The classification never consults the checksum: same length and first character, same label. */
  lemma TipoReadsOnlyFirstCharacter(s: string, t: string)
    requires |s| == |t| && (|s| == 10 ==> s[0] == t[0])
    ensures ObtenerTipoCedula(s) == ObtenerTipoCedula(t)
  {
  }

  /**
    A cédula that passes the checksum can still be classified "Inválida": one
    whose first digit is 0, such as "0926687856".
   */
  lemma ValidCedulaClassifiedInvalid()
    ensures CedulaValida("0926687856")
    ensures ObtenerTipoCedula("0926687856") == TipoInvalida
  {
    var s := "0926687856";
    assert !IsRepeatedDigits(s) by { assert s[1] != s[0]; }
    assert s[..9] == "092668785";
    SumOfSecondVector();
  }

  // ---------------------------------------------------------------------------
  // Messages
  // ---------------------------------------------------------------------------

  const MsgCorta: string := "La Cédula debe tener 10 dígitos"
  const MsgLarga: string := "La Cédula debe tener exactamente 10 dígitos"
  const MsgNoNumerica: string := "La Cédula solo debe contener números"
  const MsgRepetida: string := "La Cédula no puede ser una secuencia de números iguales"
  const MsgInvalida: string := "La Cédula no es válida"

  /**
    `validarCedulaConMensaje`: the empty text has no message (nothing entered
    yet); otherwise the message names the first failed rule, and there is no
    message exactly when the validator accepts the text.
   */
  function ValidarCedulaConMensaje(cedula: string): (msg: string)
    ensures cedula != [] ==> (msg == [] <==> CedulaValida(cedula))
    ensures msg in {[], MsgCorta, MsgLarga, MsgNoNumerica, MsgRepetida, MsgInvalida}
  {
    if cedula == [] then ""
    else if |cedula| < 10 then MsgCorta
    else if |cedula| > 10 then MsgLarga
    else if !IsTenDigits(cedula) then MsgNoNumerica
    else if IsRepeatedDigits(cedula) then MsgRepetida
    else if !CedulaValida(cedula) then MsgInvalida
    else ""
  }

  /**
    The rules are applied in a fixed order, first failure wins: length before
    content, content before repetition, repetition before the checksum.
   */
  lemma MensajePrecedence(cedula: string)
    ensures 0 < |cedula| < 10 ==> ValidarCedulaConMensaje(cedula) == MsgCorta
    ensures |cedula| > 10 ==> ValidarCedulaConMensaje(cedula) == MsgLarga
    ensures |cedula| == 10 && !AllDigits(cedula) ==> ValidarCedulaConMensaje(cedula) == MsgNoNumerica
    ensures IsRepeatedDigits(cedula) ==> ValidarCedulaConMensaje(cedula) == MsgRepetida
    ensures ValidarCedulaConMensaje(cedula) == MsgInvalida <==>
      IsTenDigits(cedula) && !IsRepeatedDigits(cedula) && !CedulaValida(cedula)
  {
  }

  /** Nine equal digits are reported as too short, never as a repeated sequence. */
  lemma NineRepeatedDigitsTooShort(d: char)
    requires IsDigit(d)
    ensures ValidarCedulaConMensaje(Repeat(d, 9)) == MsgCorta
  {
  }
}
