/**
  The next invoice number of the sales screen: among the existing numbers of
  the form F001-YYYY-NNN whose year is the current one, take the largest
  sequence NNN and add one (1 when there is none), zero-padded to three
  digits. The current year is a parameter.
 */
module VentaPage {
  import opened Text
  import opened Wrappers

  const Prefijo: string := "F001"

  /** The two groups captured by `/^F001-(\d{4})-(\d{3})$/`. */
  datatype FacturaMatch = FacturaMatch(anio: string, secuencia: string)

  /** The shape F001-YYYY-NNN, built from its parts. */
  function FacturaText(anio: string, secuencia: string): string {
    Prefijo + "-" + anio + "-" + secuencia
  }

  /** `/^F001-(\d{4})-(\d{3})$/.exec(numero)`: a match gives back the parts the number is built from. */
  function MatchFactura(numero: string): (m: Option<FacturaMatch>)
    ensures m.Some? ==>
      |m.value.anio| == 4 && AllDigits(m.value.anio)
      && |m.value.secuencia| == 3 && AllDigits(m.value.secuencia)
      && numero == FacturaText(m.value.anio, m.value.secuencia)
  {
    if |numero| == 13 && numero[..5] == "F001-" && AllDigits(numero[5..9]) && numero[9] == '-'
       && AllDigits(numero[10..])
    then
      assert numero == numero[..5] + numero[5..9] + "-" + numero[10..];
      Some(FacturaMatch(numero[5..9], numero[10..]))
    else
      None
  }

  /** Every number of the shape F001-YYYY-NNN matches, with its own year and sequence. */
  lemma MatchFacturaOfParts(anio: string, secuencia: string)
    requires |anio| == 4 && AllDigits(anio) && |secuencia| == 3 && AllDigits(secuencia)
    ensures MatchFactura(FacturaText(anio, secuencia)) == Some(FacturaMatch(anio, secuencia))
  {
    var n := FacturaText(anio, secuencia);
    assert n[..5] == "F001-" && n[5..9] == anio && n[9] == '-' && n[10..] == secuencia;
  }

  /** The callback of the `map`: the sequence of a well-formed number of the given year, else null. */
  function SequenceOf(numero: string, year: nat): (r: Option<nat>)
    ensures r.Some? ==> r.value < 1000
  {
    match MatchFactura(numero)
    case Some(m) =>
      if m.anio == NatToString(year) then
        DecimalValueBound3(m.secuencia);
        Some(DecimalValue(m.secuencia))
      else None
    case None => None
  }

  lemma DecimalValueBound3(s: string)
    requires |s| == 3 && AllDigits(s)
    ensures DecimalValue(s) < 1000
  {
    assert s[..2][..1] == s[..1] && s[..1][..0] == [];
    assert DecimalValue(s[..1]) <= 9;
    assert DecimalValue(s[..2]) <= 99;
  }

  /**
    Which numbers contribute a sequence, and which: for a four-digit year,
    exactly the numbers "F001-" + year + "-" + t with t three digits, and the
    sequence is `parseInt(t, 10)`.
   */
  lemma SequenceOfCharacterization(numero: string, year: nat, k: nat)
    requires 1000 <= year <= 9999
    ensures SequenceOf(numero, year) == Some(k) <==>
      exists t :: |t| == 3 && AllDigits(t) && numero == FacturaText(NatToString(year), t) && DecimalValue(t) == k
  {
    if SequenceOf(numero, year) == Some(k) {
      var m := MatchFactura(numero).value;
      assert |m.secuencia| == 3 && AllDigits(m.secuencia) && numero == FacturaText(NatToString(year), m.secuencia)
        && DecimalValue(m.secuencia) == k;
    }
    if exists t :: |t| == 3 && AllDigits(t) && numero == FacturaText(NatToString(year), t) && DecimalValue(t) == k {
      var t :| |t| == 3 && AllDigits(t) && numero == FacturaText(NatToString(year), t) && DecimalValue(t) == k;
      NatToStringLength(year);
      MatchFacturaOfParts(NatToString(year), t);
    }
  }

  /** A year that does not print with four digits never matches the four-digit year group. */
  lemma SequenceOfOtherYearLengths(numero: string, year: nat)
    requires year < 1000 || year > 9999
    ensures SequenceOf(numero, year).None?
  {
    NatToStringLength(year);
  }

  /** `numeros.map(SequenceOf).filter(n => n !== null)`: the sequences of this year's well-formed numbers, in order. */
  function Secuencias(numeros: seq<string>, year: nat): (r: seq<nat>)
    ensures forall k :: k in r <==> exists i :: 0 <= i < |numeros| && SequenceOf(numeros[i], year) == Some(k)
  {
    if numeros == [] then []
    else
      var rest := Secuencias(numeros[1..], year);
      assert forall i :: 1 <= i < |numeros| ==> numeros[i] == numeros[1..][i - 1];
      match SequenceOf(numeros[0], year)
      case Some(k) => [k] + rest
      case None => rest
  }

  /** `Math.max(...s)`: an element of s that no element exceeds. */
  function Max(s: seq<nat>): (m: nat)
    requires s != []
    ensures m in s && forall k :: k in s ==> k <= m
  {
    if |s| == 1 then s[0]
    else
      var m := Max(s[1..]);
      assert forall k :: k in s ==> k == s[0] || k in s[1..];
      if s[0] >= m then s[0] else m
  }

  /** The next sequence number: 1 when there is none this year, otherwise one past the largest. */
  function NextSequence(numeros: seq<string>, year: nat): (next: nat)
    ensures next >= 1
    ensures forall i :: 0 <= i < |numeros| && SequenceOf(numeros[i], year).Some? ==>
      SequenceOf(numeros[i], year).value < next
  {
    var secuencias := Secuencias(numeros, year);
    if |secuencias| == 0 then 1 else Max(secuencias) + 1
  }

  /**
    `String(next).padStart(3, '0')`: at least three digits, exactly three below
    1000, and `parseInt` reads the sequence back.
   */
  function SequenceText(next: nat): (s: string)
    ensures |s| >= 3 && AllDigits(s) && DecimalValue(s) == next
    ensures next < 1000 <==> |s| == 3
  {
    var digits := NatToString(next);
    var s := PadStart(digits, 3, '0');
    assert s == s[..|s| - |digits|] + digits;
    DecimalValueLeadingZeros(s[..|s| - |digits|], digits);
    DecimalValueOfNatToString(next);
    NatToStringLength(next);
    s
  }

  /** `getNextNumeroFactura`: "F001-" + year + "-" + the next sequence, zero-padded. */
  function GetNextNumeroFactura(numeros: seq<string>, year: nat): string {
    FacturaText(NatToString(year), SequenceText(NextSequence(numeros, year)))
  }

  // ---------------------------------------------------------------------------
  // Properties
  // ---------------------------------------------------------------------------

  /** Where the parts sit in an invoice number: the prefix, the year, the hyphen, the sequence. */
  lemma FacturaTextParts(y: string, s: string)
    ensures var r := FacturaText(y, s);
      && |r| == 6 + |y| + |s|
      && r[..5] == "F001-" && r[5..5 + |y|] == y && r[5 + |y|] == '-' && r[6 + |y|..] == s
  {
  }

  /**
    With a four-digit year and a sequence below 1000, the new number has the
    pattern the page searches for, and reading it back gives its sequence.
   */
  lemma NextNumberReadsBack(numeros: seq<string>, year: nat)
    requires 1000 <= year <= 9999 && NextSequence(numeros, year) < 1000
    ensures SequenceOf(GetNextNumeroFactura(numeros, year), year) == Some(NextSequence(numeros, year))
  {
    NatToStringLength(year);
    MatchFacturaOfParts(NatToString(year), SequenceText(NextSequence(numeros, year)));
  }

  /**
    What the next sequence is, without reference to how it is computed: 1 when
    no number of this year is well formed, otherwise one more than a sequence
    that occurs, and greater than every sequence that occurs.
   */
  lemma {:induction false} NextSequenceCharacterization(numeros: seq<string>, year: nat)
    ensures (forall i :: 0 <= i < |numeros| ==> SequenceOf(numeros[i], year).None?) ==>
      NextSequence(numeros, year) == 1
    ensures forall i :: 0 <= i < |numeros| && SequenceOf(numeros[i], year).Some? ==>
      SequenceOf(numeros[i], year).value < NextSequence(numeros, year)
    ensures (exists i :: 0 <= i < |numeros| && SequenceOf(numeros[i], year).Some?) ==>
      exists i :: 0 <= i < |numeros| && SequenceOf(numeros[i], year) == Some(NextSequence(numeros, year) - 1)
  {
    var secuencias := Secuencias(numeros, year);
    if |secuencias| != 0 {
      assert secuencias[0] in secuencias;
      forall i | 0 <= i < |numeros| && SequenceOf(numeros[i], year).Some?
        ensures SequenceOf(numeros[i], year).value < NextSequence(numeros, year)
      {
        assert SequenceOf(numeros[i], year).value in secuencias;
      }
    }
  }

  /** With no well-formed number of this year, the sequence is "001". */
  lemma FirstOfTheYear(numeros: seq<string>, year: nat)
    requires forall i :: 0 <= i < |numeros| ==> SequenceOf(numeros[i], year).None?
    ensures GetNextNumeroFactura(numeros, year) == FacturaText(NatToString(year), "001")
  {
    NextSequenceCharacterization(numeros, year);
    assert NatToString(1) == "1";
    assert SequenceText(1) == PadStart("1", 3, '0') == "001";
  }

  /** The new number differs from every well-formed number of this year already issued. */
  lemma NextNumberIsFresh(numeros: seq<string>, year: nat, i: nat)
    requires i < |numeros| && SequenceOf(numeros[i], year).Some?
    ensures GetNextNumeroFactura(numeros, year) != numeros[i]
  {
    NextSequenceCharacterization(numeros, year);
    var r := GetNextNumeroFactura(numeros, year);
    var next := NextSequence(numeros, year);
    var m := MatchFactura(numeros[i]).value;
    var s := SequenceText(next);
    assert m.anio == NatToString(year);
    assert |numeros[i]| == 13;
  }

  /** Whether a number takes part depends on the number alone: adding a malformed or other-year number changes nothing. */
  lemma {:induction false} IgnoredNumbersDoNotMatter(numeros: seq<string>, year: nat, extra: string, pos: nat)
    requires pos <= |numeros| && SequenceOf(extra, year).None?
    ensures NextSequence(numeros[..pos] + [extra] + numeros[pos..], year) == NextSequence(numeros, year)
  {
    var bigger := numeros[..pos] + [extra] + numeros[pos..];
    forall k ensures (exists i :: 0 <= i < |bigger| && SequenceOf(bigger[i], year) == Some(k))
                 <==> (exists i :: 0 <= i < |numeros| && SequenceOf(numeros[i], year) == Some(k))
    {
      if i :| 0 <= i < |bigger| && SequenceOf(bigger[i], year) == Some(k) {
        if i < pos {
          assert bigger[i] == numeros[i];
        } else {
          assert i > pos && bigger[i] == numeros[i - 1];
        }
      }
      if i :| 0 <= i < |numeros| && SequenceOf(numeros[i], year) == Some(k) {
        if i < pos {
          assert bigger[i] == numeros[i];
        } else {
          assert bigger[i + 1] == numeros[i];
        }
      }
    }
    SameSequencesSameNext(bigger, numeros, year);
  }

  /** Two lists with the same numbers (in any order, any multiplicity) give the same next number. */
  lemma SameNumbersSameResult(a: seq<string>, b: seq<string>, year: nat)
    requires forall v :: v in a <==> v in b
    ensures GetNextNumeroFactura(a, year) == GetNextNumeroFactura(b, year)
  {
    forall k ensures (exists i :: 0 <= i < |a| && SequenceOf(a[i], year) == Some(k))
                 <==> (exists i :: 0 <= i < |b| && SequenceOf(b[i], year) == Some(k))
    {
      if i :| 0 <= i < |a| && SequenceOf(a[i], year) == Some(k) {
        assert a[i] in b;
        var j :| 0 <= j < |b| && b[j] == a[i];
      }
      if i :| 0 <= i < |b| && SequenceOf(b[i], year) == Some(k) {
        assert b[i] in a;
        var j :| 0 <= j < |a| && a[j] == b[i];
      }
    }
    SameSequencesSameNext(a, b, year);
  }

  /** Reordering the list does not change the next number. */
  lemma ReorderingDoesNotMatter(a: seq<string>, b: seq<string>, year: nat)
    requires multiset(a) == multiset(b)
    ensures GetNextNumeroFactura(a, year) == GetNextNumeroFactura(b, year)
  {
    forall v ensures v in a <==> v in b {
      assert v in a <==> v in multiset(a);
      assert v in b <==> v in multiset(b);
    }
    SameNumbersSameResult(a, b, year);
  }

  lemma SameSequencesSameNext(a: seq<string>, b: seq<string>, year: nat)
    requires forall k :: (exists i :: 0 <= i < |a| && SequenceOf(a[i], year) == Some(k))
                     <==> (exists i :: 0 <= i < |b| && SequenceOf(b[i], year) == Some(k))
    ensures NextSequence(a, year) == NextSequence(b, year)
  {
    NextSequenceCharacterization(a, year);
    NextSequenceCharacterization(b, year);
    var sa := Secuencias(a, year);
    var sb := Secuencias(b, year);
    if |sa| == 0 || |sb| == 0 {
      assert forall k :: k in sa <==> k in sb;
    } else {
      assert Max(sa) in sb && Max(sb) in sa;
    }
  }

  /** After sequence 999 the next number has four digits: "F001-YYYY-1000". */
  lemma SequenceOverflow(numeros: seq<string>, year: nat)
    requires exists i :: 0 <= i < |numeros| && SequenceOf(numeros[i], year) == Some(999)
    ensures NextSequence(numeros, year) == 1000
    ensures GetNextNumeroFactura(numeros, year) == FacturaText(NatToString(year), "1000")
  {
    NextSequenceCharacterization(numeros, year);
    NatToStringOfThousand();
    assert SequenceText(1000) == "1000";
  }

  /**
    The four-digit number does not fit the three-digit pattern, so once issued
    it is ignored and the next call produces the same number again.
   */
  lemma SequenceOverflowRepeats(numeros: seq<string>, year: nat)
    requires 1000 <= year <= 9999
    requires exists i :: 0 <= i < |numeros| && SequenceOf(numeros[i], year) == Some(999)
    ensures GetNextNumeroFactura(numeros + [GetNextNumeroFactura(numeros, year)], year)
         == GetNextNumeroFactura(numeros, year)
  {
    SequenceOverflow(numeros, year);
    var r := GetNextNumeroFactura(numeros, year);
    FourDigitSequenceIgnored(year);
    IgnoredNumbersDoNotMatter(numeros, year, r, |numeros|);
    InsertAtEnd(numeros, r);
  }

  lemma FourDigitSequenceIgnored(year: nat)
    requires 1000 <= year <= 9999
    ensures SequenceOf(FacturaText(NatToString(year), "1000"), year).None?
  {
    NatToStringLength(year);
    assert |FacturaText(NatToString(year), "1000")| == 14;
  }

  lemma InsertAtEnd(numeros: seq<string>, r: string)
    ensures numeros[..|numeros|] + [r] + numeros[|numeros|..] == numeros + [r]
  {
  }

  lemma NatToStringOfThousand()
    ensures NatToString(1000) == "1000"
  {
    assert NatToString(1) == "1";
    assert NatToString(10) == "10";
    assert NatToString(100) == "100";
  }
}
