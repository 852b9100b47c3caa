/**
  The alert list screen: the search / type / priority filter, the ten-per-page
  pagination over the filtered list, the list of alerts marked as read, and
  the two display helpers for an alert's type and priority.
 */
module AlertasPage {
  import opened Text
  import opened Wrappers
  import Pagination

  const Prioridades: seq<string> := ["BAJA", "MEDIA", "ALTA", "CRITICA"]

  /** An alert as the list receives it; a field the server leaves out is `None`. */
  datatype Alerta = Alerta(
    id: int,
    titulo: Option<string>,
    descripcion: Option<string>,
    tipo: Option<string>,
    prioridad: Option<string>)

  // ---------------------------------------------------------------------------
  // Filter
  // ---------------------------------------------------------------------------

  /** `field?.toLowerCase().includes(searchLower)`: a missing field never matches. */
  predicate FieldMatches(field: Option<string>, searchLower: string) {
    field.Some? && Includes(LowerString(field.value), searchLower)
  }

  /** The search term, lower-cased, occurs in the title, the description or the type. */
  predicate MatchesSearch(a: Alerta, searchTerm: string) {
    var searchLower := LowerString(searchTerm);
    FieldMatches(a.titulo, searchLower) || FieldMatches(a.descripcion, searchLower)
    || FieldMatches(a.tipo, searchLower)
  }

  /** An empty filter imposes nothing; otherwise the field must be present and equal. */
  predicate MatchesFilter(field: Option<string>, filter: string) {
    filter == [] || field == Some(filter)
  }

  /** The predicate passed to `alertas.filter`. */
  predicate Keep(a: Alerta, searchTerm: string, filterTipo: string, filterPrioridad: string) {
    MatchesSearch(a, searchTerm) && MatchesFilter(a.tipo, filterTipo)
    && MatchesFilter(a.prioridad, filterPrioridad)
  }

  /** `filteredAlertas`: the alerts the predicate keeps, in list order. */
  function FilterAlertas(alertas: seq<Alerta>, searchTerm: string, filterTipo: string, filterPrioridad: string)
    : (r: seq<Alerta>)
    ensures |r| <= |alertas|
    ensures forall a :: a in r <==> a in alertas && Keep(a, searchTerm, filterTipo, filterPrioridad)
  {
    if alertas == [] then []
    else
      var rest := FilterAlertas(alertas[1..], searchTerm, filterTipo, filterPrioridad);
      assert forall a :: a in alertas <==> a == alertas[0] || a in alertas[1..];
      if Keep(alertas[0], searchTerm, filterTipo, filterPrioridad) then [alertas[0]] + rest else rest
  }

  /**
    The filter works alert by alert and keeps the list order: filtering a
    concatenation is the concatenation of the filtered parts.
   */
  lemma {:induction false} FilterDistributes(s: seq<Alerta>, t: seq<Alerta>, searchTerm: string, filterTipo: string, filterPrioridad: string)
    ensures FilterAlertas(s + t, searchTerm, filterTipo, filterPrioridad)
         == FilterAlertas(s, searchTerm, filterTipo, filterPrioridad)
          + FilterAlertas(t, searchTerm, filterTipo, filterPrioridad)
  {
    if s != [] {
      assert (s + t)[1..] == s[1..] + t;
      FilterDistributes(s[1..], t, searchTerm, filterTipo, filterPrioridad);
    } else {
      assert s + t == t;
    }
  }

  /** A single alert is kept exactly when the predicate holds for it. */
  lemma FilterSingle(a: Alerta, searchTerm: string, filterTipo: string, filterPrioridad: string)
    ensures FilterAlertas([a], searchTerm, filterTipo, filterPrioridad)
         == if Keep(a, searchTerm, filterTipo, filterPrioridad) then [a] else []
  {
    assert [a][1..] == [];
  }

  /** Filtering the filtered list again changes nothing. */
  lemma {:induction false} FilterIdempotent(alertas: seq<Alerta>, searchTerm: string, filterTipo: string, filterPrioridad: string)
    ensures var r := FilterAlertas(alertas, searchTerm, filterTipo, filterPrioridad);
      FilterAlertas(r, searchTerm, filterTipo, filterPrioridad) == r
  {
    if alertas != [] {
      FilterIdempotent(alertas[1..], searchTerm, filterTipo, filterPrioridad);
      var rest := FilterAlertas(alertas[1..], searchTerm, filterTipo, filterPrioridad);
      if Keep(alertas[0], searchTerm, filterTipo, filterPrioridad) {
        assert ([alertas[0]] + rest)[1..] == rest;
      }
    }
  }

  /** A non-empty type or priority filter lets through only alerts with exactly that type or priority. */
  lemma FiltersConstrainKeptAlerts(alertas: seq<Alerta>, searchTerm: string, filterTipo: string, filterPrioridad: string)
    ensures forall a :: a in FilterAlertas(alertas, searchTerm, filterTipo, filterPrioridad) ==>
      && a in alertas
      && MatchesSearch(a, searchTerm)
      && (filterTipo != [] ==> a.tipo == Some(filterTipo))
      && (filterPrioridad != [] ==> a.prioridad == Some(filterPrioridad))
  {
  }

  /** With every filter empty, an alert is kept exactly when it has a title, a description or a type. */
  lemma EmptySearchKeepsAlertsWithText(a: Alerta)
    ensures Keep(a, "", "", "") <==> a.titulo.Some? || a.descripcion.Some? || a.tipo.Some?
  {
    assert LowerString("") == "";
    if a.titulo.Some? { IncludesEmpty(LowerString(a.titulo.value)); }
    if a.descripcion.Some? { IncludesEmpty(LowerString(a.descripcion.value)); }
    if a.tipo.Some? { IncludesEmpty(LowerString(a.tipo.value)); }
  }

  lemma {:induction false} LowerStringIdempotent(s: string)
    ensures LowerString(LowerString(s)) == LowerString(s)
  {
    var l := LowerString(s);
    assert forall i :: 0 <= i < |s| ==> ToLower(l[i]) == l[i];
  }

  /** The search ignores the case of the term: typing it in any case selects the same alerts. */
  lemma SearchIgnoresCase(a: Alerta, searchTerm: string, other: string)
    requires LowerString(other) == LowerString(searchTerm)
    ensures MatchesSearch(a, other) <==> MatchesSearch(a, searchTerm)
    ensures MatchesSearch(a, LowerString(searchTerm)) <==> MatchesSearch(a, searchTerm)
  {
    LowerStringIdempotent(searchTerm);
  }

  /** The search ignores the case of the alert's own text too. */
  lemma SearchIgnoresFieldCase(a: Alerta, b: Alerta, searchTerm: string)
    requires a.titulo.Some? <==> b.titulo.Some?
    requires a.titulo.Some? ==> LowerString(a.titulo.value) == LowerString(b.titulo.value)
    requires a.descripcion == b.descripcion && a.tipo == b.tipo
    ensures MatchesSearch(a, searchTerm) <==> MatchesSearch(b, searchTerm)
  {
  }

  // ---------------------------------------------------------------------------
  // Pagination over the filtered list
  // ---------------------------------------------------------------------------

  /** `paginatedAlertas`: page `currentPage` of the filtered alerts. */
  function PaginatedAlertas(alertas: seq<Alerta>, searchTerm: string, filterTipo: string, filterPrioridad: string,
                            currentPage: int): (r: seq<Alerta>)
    ensures currentPage >= 1 ==> |r| <= Pagination.ItemsPerPage
    ensures forall a :: a in r ==> a in alertas && Keep(a, searchTerm, filterTipo, filterPrioridad)
  {
    var filtered := FilterAlertas(alertas, searchTerm, filterTipo, filterPrioridad);
    var page := Pagination.Page(filtered, currentPage);
    assert forall a :: a in page ==> a in filtered by {
      if currentPage >= 1 {
        forall a | a in page ensures a in filtered {
          var i :| 0 <= i < |page| && page[i] == a;
          assert page[i] == filtered[(currentPage - 1) * Pagination.ItemsPerPage + i];
        }
      } else {
        assert page == Pagination.JsSlice(filtered, (currentPage - 1) * 10, (currentPage - 1) * 10 + 10);
      }
    }
    page
  }

  /** Showing every page of the filtered list, one after the other, shows the filtered list. */
  lemma AllAlertPagesShowTheFilteredList(alertas: seq<Alerta>, searchTerm: string, filterTipo: string, filterPrioridad: string)
    ensures var filtered := FilterAlertas(alertas, searchTerm, filterTipo, filterPrioridad);
      Pagination.PagesUpTo(filtered, Pagination.TotalPages(|filtered|)) == filtered
  {
    Pagination.AllPagesGiveBackTheList(FilterAlertas(alertas, searchTerm, filterTipo, filterPrioridad));
  }

  // ---------------------------------------------------------------------------
  // Alerts marked as read
  // ---------------------------------------------------------------------------

  predicate NoDuplicates(s: seq<int>) {
    forall i, j :: 0 <= i < j < |s| ==> s[i] != s[j]
  }

  /** The read list after marking `id`: unchanged if it is already there, otherwise `id` at the end. */
  function Marked(leidas: seq<int>, id: int): seq<int> {
    if id in leidas then leidas else leidas + [id]
  }

  /** Marking keeps every id already read in its place, and afterwards `id` is read. */
  lemma MarkedKeepsPrefix(leidas: seq<int>, id: int)
    ensures var r := Marked(leidas, id);
      |leidas| <= |r| <= |leidas| + 1 && r[..|leidas|] == leidas && id in r
      && forall x :: x in r <==> x in leidas || x == id
  {
  }

  /** Marking never creates a duplicate. */
  lemma MarkedNoDuplicates(leidas: seq<int>, id: int)
    requires NoDuplicates(leidas)
    ensures NoDuplicates(Marked(leidas, id))
  {
  }

  /** Marking the same alert twice is the same as marking it once. */
  lemma MarkedIdempotent(leidas: seq<int>, id: int)
    ensures Marked(Marked(leidas, id), id) == Marked(leidas, id)
  {
  }

  /** The read list after marking `ids` in turn. */
  function MarkAll(leidas: seq<int>, ids: seq<int>): seq<int>
    decreases |ids|
  {
    if ids == [] then leidas else MarkAll(Marked(leidas, ids[0]), ids[1..])
  }

  /**
    After any sequence of marks the read list holds each marked id exactly once,
    after the ids read before, and nothing else.
   */
  lemma {:induction false} MarkAllSpec(leidas: seq<int>, ids: seq<int>)
    requires NoDuplicates(leidas)
    ensures var r := MarkAll(leidas, ids);
      NoDuplicates(r) && |leidas| <= |r| && r[..|leidas|] == leidas
      && forall x :: x in r <==> x in leidas || x in ids
    decreases |ids|
  {
    if ids != [] {
      var m := Marked(leidas, ids[0]);
      MarkedNoDuplicates(leidas, ids[0]);
      MarkAllSpec(m, ids[1..]);
      var r := MarkAll(m, ids[1..]);
      assert r[..|leidas|] == r[..|m|][..|leidas|];
      assert forall x :: x in ids <==> x == ids[0] || x in ids[1..];
    }
  }

  /** The `leidas` state of the page: the ids of the alerts opened so far. */
  class ReadAlerts {
    var leidas: seq<int>

    ghost predicate Valid()
      reads this
    {
      NoDuplicates(leidas)
    }

    constructor()
      ensures Valid() && leidas == []
    {
      leidas := [];
    }

    /** `esLeida`: whether the alert has been opened. */
    predicate EsLeida(id: int)
      reads this
    {
      id in leidas
    }

    /** `marcarComoLeida`: appends `id` unless it is already in the list. */
    method MarcarComoLeida(id: int)
      requires Valid()
      modifies this
      ensures Valid() && EsLeida(id)
      ensures leidas == Marked(old(leidas), id)
      ensures forall x :: x != id ==> (EsLeida(x) <==> old(EsLeida(x)))
    {
      if id !in leidas {
        leidas := leidas + [id];
      }
    }
  }

  // ---------------------------------------------------------------------------
  // Display helpers
  // ---------------------------------------------------------------------------

  /** `getPrioridadColor`: one colour per known priority, grey for anything else. */
  function GetPrioridadColor(prioridad: Option<string>): (color: string)
    ensures color == "#666" <==> !(prioridad.Some? && prioridad.value in Prioridades)
  {
    match prioridad
    case Some("CRITICA") => "#f44336"
    case Some("ALTA") => "#ff9800"
    case Some("MEDIA") => "#ffc107"
    case Some("BAJA") => "#4caf50"
    case _ => "#666"
  }

  /** The four priorities get four different colours. */
  lemma PrioridadColorsDistinct(p: string, q: string)
    requires p in Prioridades && q in Prioridades && p != q
    ensures GetPrioridadColor(Some(p)) != GetPrioridadColor(Some(q))
  {
  }

  /** `s.split(sep)` for a one-character separator: the pieces between separators, empty ones included. */
  function Split(s: string, sep: char): (parts: seq<string>)
    ensures |parts| >= 1
  {
    if s == [] then [[]]
    else
      var rest := Split(s[1..], sep);
      if s[0] == sep then [[]] + rest else [[s[0]] + rest[0]] + rest[1..]
  }

  /** `parts.join(sep)` */
  function Join(parts: seq<string>, sep: char): string
    requires |parts| >= 1
  {
    if |parts| == 1 then parts[0] else parts[0] + [sep] + Join(parts[1..], sep)
  }

  /** Splitting and joining again gives back the string, and no piece holds the separator. */
  lemma {:induction false} SplitJoin(s: string, sep: char)
    ensures Join(Split(s, sep), sep) == s
    ensures forall k :: 0 <= k < |Split(s, sep)| ==> sep !in Split(s, sep)[k]
  {
    if s != [] {
      SplitJoin(s[1..], sep);
      var rest := Split(s[1..], sep);
      if s[0] != sep {
        var parts := Split(s, sep);
        assert parts[1..] == rest[1..];
        forall k | 1 <= k < |parts| ensures sep !in parts[k] {
          assert parts[k] == rest[k];
        }
      }
    }
  }

  /** `word.charAt(0).toUpperCase() + word.slice(1)` */
  function Capitalize(word: string): string {
    if word == [] then [] else [ToUpper(word[0])] + word[1..]
  }

  /** `words.map(capitalize)`: each word capitalised in its place. */
  function CapitalizeAll(words: seq<string>): (r: seq<string>)
    ensures |r| == |words|
    ensures forall i :: 0 <= i < |words| ==> r[i] == Capitalize(words[i])
  {
    if words == [] then []
    else
      var rest := CapitalizeAll(words[1..]);
      assert forall i :: 1 <= i < |words| ==> words[1..][i - 1] == words[i];
      [Capitalize(words[0])] + rest
  }

  /** `formatTipo`: a missing or empty type gives ""; otherwise lower-case, split at `_`, capitalise, join with spaces. */
  function FormatTipo(tipo: Option<string>): string {
    if tipo.None? || tipo.value == [] then []
    else Join(CapitalizeAll(Split(LowerString(tipo.value), '_')), ' ')
  }

  /** Character i of the title-cased text: a space for `_`, upper case at the start of a segment. */
  function TitleCaseAt(s: string, atStart: bool, i: nat): char
    requires i < |s|
  {
    if s[i] == '_' then ' '
    else if (if i == 0 then atStart else s[i - 1] == '_') then ToUpper(s[i])
    else s[i]
  }

  /**
    The same transformation character by character: `_` becomes a space, the
    first character of each segment is upper-cased, the others are kept.
   */
  function TitleCase(s: string, atStart: bool): (r: string)
    ensures |r| == |s|
    ensures forall i :: 0 <= i < |s| ==> r[i] == TitleCaseAt(s, atStart, i)
  {
    if s == [] then []
    else
      var c := if s[0] == '_' then ' ' else if atStart then ToUpper(s[0]) else s[0];
      var rest := TitleCase(s[1..], s[0] == '_');
      var r := [c] + rest;
      assert forall i :: 0 <= i < |s| ==> r[i] == TitleCaseAt(s, atStart, i) by {
        forall i | 1 <= i < |s| ensures r[i] == TitleCaseAt(s, atStart, i) {
          assert r[i] == rest[i - 1] == TitleCaseAt(s[1..], s[0] == '_', i - 1);
          assert s[1..][i - 1] == s[i];
          if i >= 2 { assert s[1..][i - 2] == s[i - 1]; }
        }
      }
      r
  }

  lemma JoinConsChar(c: char, w: string, ws: seq<string>, sep: char)
    ensures Join([[c] + w] + ws, sep) == [c] + Join([w] + ws, sep)
  {
    if ws != [] {
      assert ([[c] + w] + ws)[1..] == ws;
      assert ([w] + ws)[1..] == ws;
    }
  }

  /** Split, capitalise (the first piece only when `atStart`) and join agrees with `TitleCase`. */
  lemma {:induction false} SplitCapitalizeJoin(s: string, atStart: bool)
    ensures var parts := Split(s, '_');
      Join([if atStart then Capitalize(parts[0]) else parts[0]] + CapitalizeAll(parts[1..]), ' ')
      == TitleCase(s, atStart)
  {
    var parts := Split(s, '_');
    if s == [] {
      assert parts == [[]];
    } else {
      var rest := Split(s[1..], '_');
      SplitCapitalizeJoin(s[1..], s[0] == '_');
      if s[0] == '_' {
        assert parts == [[]] + rest;
        assert parts[1..] == rest;
        assert CapitalizeAll(rest) == [Capitalize(rest[0])] + CapitalizeAll(rest[1..]);
        assert ([[]] + CapitalizeAll(rest))[1..] == CapitalizeAll(rest);
      } else {
        assert parts == [[s[0]] + rest[0]] + rest[1..];
        var first := if atStart then ToUpper(s[0]) else s[0];
        assert (if atStart then Capitalize(parts[0]) else parts[0]) == [first] + rest[0];
        JoinConsChar(first, rest[0], CapitalizeAll(rest[1..]), ' ');
      }
    }
  }

  /**
    What `formatTipo` does to each character: the result is as long as the
    type, `_` becomes a space, the first character of the type and every
    character after `_` is upper-cased and every other one lower-cased.
   */
  lemma FormatTipoCharacterization(tipo: string)
    ensures tipo == [] ==> FormatTipo(Some(tipo)) == []
    ensures var r := FormatTipo(Some(tipo));
      |r| == |tipo|
      && forall i :: 0 <= i < |tipo| ==>
        r[i] == if tipo[i] == '_' then ' '
                else if i == 0 || tipo[i - 1] == '_' then ToUpper(ToLower(tipo[i]))
                else ToLower(tipo[i])
  {
    if tipo != [] {
      var s := LowerString(tipo);
      var parts := Split(s, '_');
      SplitCapitalizeJoin(s, true);
      assert CapitalizeAll(parts) == [Capitalize(parts[0])] + CapitalizeAll(parts[1..]);
      assert forall i :: 0 <= i < |tipo| ==> (s[i] == '_' <==> tipo[i] == '_');
    }
  }

  /** A missing type is shown as "". */
  lemma FormatTipoMissing()
    ensures FormatTipo(None) == []
  {
  }
}
