# Farmaco Plus admin front end: validation, invoice numbering and list logic

This project models the logic of the pharmacy administration front end that runs
without the network. It covers four parts:

- **Ecuadorian cédula (national identity number) utilities** (`cedulaUtils.js`):
  - the validator with its modulus-10 check digit;
  - the 2-7-1 display format;
  - the classification by first digit;
  - the validator that returns a message.
- **Client screen** (`ClientesPage.jsx`):
  - the form validator, a chain of checks where the first failure decides the message;
  - the cédula error shown beside the form, both while typing and when the edit form opens;
  - the replace-by-id update of the local client list after an edit.
- **Sales screen** (`VentaPage.jsx`):
  - the next invoice number `F001-YYYY-NNN`;
  - the ten-per-page pagination, which every list screen shares.
- **Alert screen** (`AlertasPage.jsx`):
  - the search / type / priority filter and its pagination;
  - the list of alerts marked as read;
  - the `formatTipo` label transform;
  - the priority colour mapping.

Files:

- `wrappers.dfy`: `Option`. It models a missing field and JavaScript `null`.
- `text.dfy`: the JavaScript string operations the pages use. Each is restricted to what the pages need:
  - the `trim()` / `\s` whitespace set;
  - ASCII `toLowerCase` / `toUpperCase`;
  - `includes`;
  - decimal `toString` and `parseInt`;
  - `padStart`.
- `cedula_utils.dfy`:
  - `ValidarCedulaEcuatoriana` is a method whose `for` loop keeps the invariant `suma == WeightedSum(prefix)`. It is proved equal to the predicate `CedulaValida`.
  - The other members are functions and lemmas about that predicate.
- `clientes_page.dfy`: the form validator, the cédula error and the list update, all as functions on values.
- `pagination.dfy`: JavaScript `slice` with its index clamping, the page count and the page contents.
- `venta_page.dfy`: the invoice-number pipeline (`map` / `filter` / `Math.max` / `padStart`). The current year is a parameter.
- `alertas_page.dfy`:
  - the filter as a recursive function;
  - the `leidas` state as the class `ReadAlerts`, whose method `MarcarComoLeida` appends in place;
  - `formatTipo` as `split` / `map` / `join`, proved equal to a character-by-character reference function.

The classification `obtenerTipoCedula` returns "Inválida" for every number whose first digit is 0. Some numbers that start with 0 pass the validator, for example "0926687856" (`CedulaUtils.ValidCedulaClassifiedInvalid`). The model keeps this behaviour as written.

## Model

Source paths are relative to the repository root.

| member | source | states |
|---|---|---|
| CedulaUtils.Term | Desktop/Front-farmaco-plus/Front-farmaco-plus/src/utils/cedulaUtils.js:28-33 | a digit times its weight, with the two digits of a product above 9 added together, is a single digit |
| CedulaUtils.WeightedSum | Desktop/Front-farmaco-plus/Front-farmaco-plus/src/utils/cedulaUtils.js:25-36 | the running sum of reduced terms is at most 9 per position |
| CedulaUtils.ExpectedCheckDigit | Desktop/Front-farmaco-plus/Front-farmaco-plus/src/utils/cedulaUtils.js:39-40 | the expected check digit is a digit 0..9 |
| CedulaUtils.CedulaValida | Desktop/Front-farmaco-plus/Front-farmaco-plus/src/utils/cedulaUtils.js:10-43 | the verdict as a predicate: ten digits, not all equal, last digit equal to the expected check digit; its properties are `CheckDigitCharacterization`, `CheckDigitUnique`, `SingleDigitErrorDetected` and `RepeatedDigitsRejected`, and the loop is proved equal to it |
| CedulaUtils.ValidarCedulaEcuatoriana | Desktop/Front-farmaco-plus/Front-farmaco-plus/src/utils/cedulaUtils.js:10-43 | the loop's verdict equals `CedulaValida`: ten ASCII digits, not ten equal digits, and the last digit equals the check digit computed from the first nine; a true verdict implies ten digits that are not all equal |
| CedulaUtils.RepeatedDigitsRejected | Desktop/Front-farmaco-plus/Front-farmaco-plus/src/utils/cedulaUtils.js:17-19 | none of the ten strings of one repeated digit is valid |
| CedulaUtils.ZerosPassChecksum | Desktop/Front-farmaco-plus/Front-farmaco-plus/src/utils/cedulaUtils.js:17-42 | "0000000000" satisfies the checksum, and only the repeated-digit rule rejects it |
| CedulaUtils.CheckDigitCharacterization | Desktop/Front-farmaco-plus/Front-farmaco-plus/src/utils/cedulaUtils.js:22-42 | for ten non-repeated digits: S <= 81, valid iff last digit == (10 - S mod 10) mod 10, iff S + last digit is a multiple of 10 |
| CedulaUtils.CheckDigitArithmetic | Desktop/Front-farmaco-plus/Front-farmaco-plus/src/utils/cedulaUtils.js:39-42 | the source's `residuo === 0 ? 0 : 10 - residuo` agrees with both modular readings for every sum and digit |
| CedulaUtils.CheckDigitUnique | Desktop/Front-farmaco-plus/Front-farmaco-plus/src/utils/cedulaUtils.js:23-42 | two valid cédulas with the same first nine digits are equal |
| CedulaUtils.ChangedCheckDigitRejected | Desktop/Front-farmaco-plus/Front-farmaco-plus/src/utils/cedulaUtils.js:23-42 | changing only the last digit of a valid cédula makes it invalid |
| CedulaUtils.TermInjective | Desktop/Front-farmaco-plus/Front-farmaco-plus/src/utils/cedulaUtils.js:27-33 | at each position, different digits give different reduced terms |
| CedulaUtils.WeightedSumUpdate | Desktop/Front-farmaco-plus/Front-farmaco-plus/src/utils/cedulaUtils.js:27-36 | replacing one digit changes the sum by exactly the change of its term |
| CedulaUtils.SingleDigitErrorDetected | Desktop/Front-farmaco-plus/Front-farmaco-plus/src/utils/cedulaUtils.js:22-42 | replacing any one of the first nine digits of a valid cédula with another digit makes it invalid |
| CedulaUtils.WeightedSumOfNine | Desktop/Front-farmaco-plus/Front-farmaco-plus/src/utils/cedulaUtils.js:27-36 | the sum over nine digits is the nine reduced terms added up |
| CedulaUtils.KnownVectors | Desktop/Front-farmaco-plus/Front-farmaco-plus/src/utils/cedulaUtils.js:10-43 | "1710034065" is valid and "1710034066" is not |
| CedulaUtils.FormatearCedula | Desktop/Front-farmaco-plus/Front-farmaco-plus/src/utils/cedulaUtils.js:50-56 | any length other than 10 is returned unchanged; for length 10 the result has 12 characters with '-' at 2 and 10, and deleting both gives back the input |
| CedulaUtils.FormatearCedulaIdempotent | Desktop/Front-farmaco-plus/Front-farmaco-plus/src/utils/cedulaUtils.js:50-56 | formatting a formatted value changes nothing |
| CedulaUtils.FormatearCedulaExample | Desktop/Front-farmaco-plus/Front-farmaco-plus/src/utils/cedulaUtils.js:55 | "1710034065" is shown as "17-1003406-5" |
| CedulaUtils.ParseDigit | Desktop/Front-farmaco-plus/Front-farmaco-plus/src/utils/cedulaUtils.js:68 | `parseInt` of one character gives a number exactly for a digit, and that number is the digit's value |
| CedulaUtils.ObtenerTipoCedula | Desktop/Front-farmaco-plus/Front-farmaco-plus/src/utils/cedulaUtils.js:63-91 | wrong length gives "Inválida"; first character 1-2 gives "Cédula de Identidad", 3-9 "Cédula de Extranjero", anything else "Inválida" |
| CedulaUtils.TipoReadsOnlyFirstCharacter | Desktop/Front-farmaco-plus/Front-farmaco-plus/src/utils/cedulaUtils.js:63-91 | inputs with the same length and first character get the same label, so the checksum is never consulted |
| CedulaUtils.ValidCedulaClassifiedInvalid | Desktop/Front-farmaco-plus/Front-farmaco-plus/src/utils/cedulaUtils.js:63-91 | "0926687856" passes the validator yet is labelled "Inválida" |
| CedulaUtils.ValidarCedulaConMensaje | Desktop/Front-farmaco-plus/Front-farmaco-plus/src/utils/cedulaUtils.js:98-124 | the message is one of the five texts or ""; for non-empty input it is "" iff the validator accepts |
| CedulaUtils.MensajePrecedence | Desktop/Front-farmaco-plus/Front-farmaco-plus/src/utils/cedulaUtils.js:98-124 | the checks apply in a fixed order (too short, too long, non-numeric, repeated); "no es válida" exactly for ten non-repeated digits that fail the checksum |
| CedulaUtils.NineRepeatedDigitsTooShort | Desktop/Front-farmaco-plus/Front-farmaco-plus/src/utils/cedulaUtils.js:103-117 | nine equal digits report the too-short message, not the repeated one |
| Text.TrimStartSpec | Desktop/Front-farmaco-plus/Front-farmaco-plus/src/pages/ClientesPage.jsx:101 | leading trim keeps a suffix, drops only whitespace, and leaves no whitespace in front |
| Text.TrimEndSpec | Desktop/Front-farmaco-plus/Front-farmaco-plus/src/pages/ClientesPage.jsx:101 | trailing trim keeps a prefix, drops only whitespace, and leaves no whitespace at the end |
| Text.Trim | Desktop/Front-farmaco-plus/Front-farmaco-plus/src/pages/ClientesPage.jsx:101 | `trim()` as the trailing trim of the leading trim; `TrimStartSpec`, `TrimEndSpec` and `TrimEmptyIffAllWhitespace` state what it removes |
| Text.TrimEmptyIffAllWhitespace | Desktop/Front-farmaco-plus/Front-farmaco-plus/src/pages/ClientesPage.jsx:101 | `!s.trim()` holds exactly when every character is whitespace |
| Text.LowerString | src/pages/AlertasPage.jsx:343-347 | same length, each character lower-cased |
| Text.NatToString | Desktop/Front-farmaco-plus/Front-farmaco-plus/src/pages/VentaPage.jsx:431-432 | at least one character, all digits |
| Text.DecimalValueOfNatToString | Desktop/Front-farmaco-plus/Front-farmaco-plus/src/pages/VentaPage.jsx:426-432 | `parseInt` reads back the number that `toString` printed |
| Text.DecimalValue | Desktop/Front-farmaco-plus/Front-farmaco-plus/src/pages/VentaPage.jsx:426 | `parseInt(s, 10)` of a digit string, read left to right; `DecimalValueOfNatToString` and `DecimalValueLeadingZeros` relate it to printing and padding |
| Text.NatToStringLength | Desktop/Front-farmaco-plus/Front-farmaco-plus/src/pages/VentaPage.jsx:431-433 | digit count: 1 below 10, 2 below 100, 3 below 1000, 4 below 10000, at least 4 from 1000 and at least 5 from 10000 |
| Text.DecimalValueLeadingZeros | Desktop/Front-farmaco-plus/Front-farmaco-plus/src/pages/VentaPage.jsx:426 | leading zeros do not change the value `parseInt` reads |
| Text.PadStart | Desktop/Front-farmaco-plus/Front-farmaco-plus/src/pages/VentaPage.jsx:433 | the result has length max(len, width), ends with the input, and is padding before it |
| Text.IncludesEmpty | src/pages/AlertasPage.jsx:345-347 | every string includes "" |
| Text.Includes | src/pages/AlertasPage.jsx:345-347 | `includes`: the needle occurs at some index; `IncludesEmpty` and `SearchIgnoresCase` use it |
| Pagination.SliceIndex | Desktop/Front-farmaco-plus/Front-farmaco-plus/src/pages/VentaPage.jsx:441 | `slice` reads an index inside the list as itself, clamps past the end, and counts a negative one from the end |
| Pagination.JsSlice | Desktop/Front-farmaco-plus/Front-farmaco-plus/src/pages/VentaPage.jsx:441 | the slice between the clamped indices, or empty when they cross |
| Pagination.TotalPages | Desktop/Front-farmaco-plus/Front-farmaco-plus/src/pages/VentaPage.jsx:438 | the fewest pages of ten that hold n items: t*10 >= n and (t-1)*10 < n |
| Pagination.Page | Desktop/Front-farmaco-plus/Front-farmaco-plus/src/pages/VentaPage.jsx:439-441 | from page 1 on, at most ten items, item i being item (page-1)*10+i of the list |
| Pagination.PageBeyondRangeIsEmpty | Desktop/Front-farmaco-plus/Front-farmaco-plus/src/pages/VentaPage.jsx:438-441 | a page past the page count is empty |
| Pagination.PageInRangeIsNotEmpty | Desktop/Front-farmaco-plus/Front-farmaco-plus/src/pages/VentaPage.jsx:438-441 | every page from 1 to the page count is non-empty, and all but the last are full |
| Pagination.PagesUpToIsPrefix | Desktop/Front-farmaco-plus/Front-farmaco-plus/src/pages/VentaPage.jsx:439-441 | pages 1..k together are the first 10k items |
| Pagination.AllPagesGiveBackTheList | Desktop/Front-farmaco-plus/Front-farmaco-plus/src/pages/VentaPage.jsx:438-441 | pages 1..totalPages together are the whole list, in order |
| ClientesPage.EmailRegexSound | Desktop/Front-farmaco-plus/Front-farmaco-plus/src/pages/ClientesPage.jsx:110-112 | a match of the e-mail pattern has no whitespace, exactly one '@' with text before it, and a '.' with text on both sides after it |
| ClientesPage.EmailRegexComplete | Desktop/Front-farmaco-plus/Front-farmaco-plus/src/pages/ClientesPage.jsx:110-112 | every string of that shape matches the pattern |
| ClientesPage.EmailRegexCharacterization | Desktop/Front-farmaco-plus/Front-farmaco-plus/src/pages/ClientesPage.jsx:110-112 | the pattern matches exactly the strings of that shape |
| ClientesPage.BlankFieldsAreAllWhitespace | Desktop/Front-farmaco-plus/Front-farmaco-plus/src/pages/ClientesPage.jsx:101-118 | each `!field.trim()` test is true exactly for all-whitespace text |
| ClientesPage.TenDigitsNotBlank | Desktop/Front-farmaco-plus/Front-farmaco-plus/src/pages/ClientesPage.jsx:113-119 | ten digits are never blank, so the phone and cédula blank checks are implied by the digit checks |
| ClientesPage.ValidateFormAcceptsExactly | Desktop/Front-farmaco-plus/Front-farmaco-plus/src/pages/ClientesPage.jsx:100-123 | null iff: name and surname non-blank and <= 100; e-mail non-blank, <= 150 and matching; phone ten digits; address <= 200; cédula valid; state non-empty |
| ClientesPage.ValidateFormFirstFailure | Desktop/Front-farmaco-plus/Front-farmaco-plus/src/pages/ClientesPage.jsx:100-123 | a check's message is returned iff that check fails and every check before it passes |
| ClientesPage.NoneMeansNoFailure | Desktop/Front-farmaco-plus/Front-farmaco-plus/src/pages/ClientesPage.jsx:100-123 | when the validator returns null, no check fails |
| ClientesPage.ReportedCheckIsFirstFailure | Desktop/Front-farmaco-plus/Front-farmaco-plus/src/pages/ClientesPage.jsx:100-123 | the reported check fails and all earlier ones pass |
| ClientesPage.CedulaInvalidaReportedLast | Desktop/Front-farmaco-plus/Front-farmaco-plus/src/pages/ClientesPage.jsx:101-120 | "La Cédula no es válida" is returned only when every earlier field is in order and the cédula is ten digits that fail the checksum |
| ClientesPage.LengthLimitCountsUntrimmedText | Desktop/Front-farmaco-plus/Front-farmaco-plus/src/pages/ClientesPage.jsx:101-103 | a name whose trimmed form fits but whose raw text exceeds 100 characters is refused as too long |
| ClientesPage.ValidateForm | Desktop/Front-farmaco-plus/Front-farmaco-plus/src/pages/ClientesPage.jsx:100-123 | the reported check does fail; `ValidateFormAcceptsExactly` and `ValidateFormFirstFailure` state when it returns null and which check it names |
| ClientesPage.ValidateFormMessage | Desktop/Front-farmaco-plus/Front-farmaco-plus/src/pages/ClientesPage.jsx:100-131 | the text returned is null iff the form is acceptable, and never empty, so `if (validationError)` stops exactly the failing forms |
| ClientesPage.MessageInjective | Desktop/Front-farmaco-plus/Front-farmaco-plus/src/pages/ClientesPage.jsx:101-121 | no two checks share a text, so the text names the failed check |
| ClientesPage.SetField | Desktop/Front-farmaco-plus/Front-farmaco-plus/src/pages/ClientesPage.jsx:91 | the named field takes the value and every other field keeps its own |
| ClientesPage.HandleChange | Desktop/Front-farmaco-plus/Front-farmaco-plus/src/pages/ClientesPage.jsx:89-97 | the named field takes the value and every other field keeps its own; the cédula error is unchanged unless the field is `dni`, and then it is the message `ValidarCedulaConMensaje` gives for the value, empty iff the value is empty or valid |
| ClientesPage.OpenEditModal | Desktop/Front-farmaco-plus/Front-farmaco-plus/src/pages/ClientesPage.jsx:165-191 | missing fields become ""; a present non-empty state is kept and a missing or empty one becomes "ACTIVO"; the birth date is the converted one; the error is "La Cédula no es válida" iff the cédula has 10 characters and fails the validator, else "" |
| ClientesPage.OpenEditAgreesWithTyping | Desktop/Front-farmaco-plus/Front-farmaco-plus/src/pages/ClientesPage.jsx:180-188 | for 10 characters, opening and typing agree on whether there is an error; for any other non-empty length, opening shows none while typing shows one |
| ClientesPage.ReplaceById | Desktop/Front-farmaco-plus/Front-farmaco-plus/src/pages/ClientesPage.jsx:235-239 | same length and order; element i is the update exactly when its id is the edited one, otherwise it is unchanged |
| ClientesPage.ReplaceByIdAbsent | Desktop/Front-farmaco-plus/Front-farmaco-plus/src/pages/ClientesPage.jsx:235-239 | when no client has the id, the list is unchanged |
| ClientesPage.ReplaceByIdIdempotent | Desktop/Front-farmaco-plus/Front-farmaco-plus/src/pages/ClientesPage.jsx:235-239 | applying the same update twice equals applying it once |
| VentaPage.MatchFactura | Desktop/Front-farmaco-plus/Front-farmaco-plus/src/pages/VentaPage.jsx:424 | a match yields a 4-digit year and a 3-digit sequence, and the number is exactly "F001-" + year + "-" + sequence |
| VentaPage.MatchFacturaOfParts | Desktop/Front-farmaco-plus/Front-farmaco-plus/src/pages/VentaPage.jsx:424 | every such number matches, with its own parts (the converse) |
| VentaPage.FacturaTextParts | Desktop/Front-farmaco-plus/Front-farmaco-plus/src/pages/VentaPage.jsx:434 | positions of prefix, year, hyphen and sequence in a built number |
| VentaPage.SequenceOf | Desktop/Front-farmaco-plus/Front-farmaco-plus/src/pages/VentaPage.jsx:423-429 | a sequence read from a well-formed number is below 1000; which numbers contribute and with which value is `SequenceOfCharacterization` |
| VentaPage.SequenceOfCharacterization | Desktop/Front-farmaco-plus/Front-farmaco-plus/src/pages/VentaPage.jsx:424-427 | for a four-digit year, a number contributes sequence k iff it is "F001-" + year + "-" + t for three digits t with `parseInt(t)` = k |
| VentaPage.SequenceOfOtherYearLengths | Desktop/Front-farmaco-plus/Front-farmaco-plus/src/pages/VentaPage.jsx:424-425 | a year that does not print with four digits never matches, so nothing contributes |
| VentaPage.Secuencias | Desktop/Front-farmaco-plus/Front-farmaco-plus/src/pages/VentaPage.jsx:422-430 | k is listed iff some number of the list is well formed, of the year, with sequence k |
| VentaPage.Max | Desktop/Front-farmaco-plus/Front-farmaco-plus/src/pages/VentaPage.jsx:431 | `Math.max` returns an element that no element exceeds |
| VentaPage.NextSequence | Desktop/Front-farmaco-plus/Front-farmaco-plus/src/pages/VentaPage.jsx:431 | at least 1 and greater than every contributed sequence; `NextSequenceCharacterization` adds that it is 1 or one past a contributed sequence |
| VentaPage.SequenceText | Desktop/Front-farmaco-plus/Front-farmaco-plus/src/pages/VentaPage.jsx:431-433 | the padded sequence has >= 3 digits, exactly 3 iff below 1000, and `parseInt` reads back the sequence |
| VentaPage.GetNextNumeroFactura | Desktop/Front-farmaco-plus/Front-farmaco-plus/src/pages/VentaPage.jsx:418-435 | "F001-" + year + "-" + the padded next sequence; `NextNumberReadsBack`, `NextNumberIsFresh`, `ReorderingDoesNotMatter` and `SequenceOverflow` state its properties |
| VentaPage.NextNumberReadsBack | Desktop/Front-farmaco-plus/Front-farmaco-plus/src/pages/VentaPage.jsx:424-434 | with a 4-digit year and a sequence below 1000, the new number matches the pattern and reads back as the next sequence |
| VentaPage.NextSequenceCharacterization | Desktop/Front-farmaco-plus/Front-farmaco-plus/src/pages/VentaPage.jsx:422-431 | 1 when no number of the year is well formed; otherwise greater than every matched sequence and one more than a matched one |
| VentaPage.FirstOfTheYear | Desktop/Front-farmaco-plus/Front-farmaco-plus/src/pages/VentaPage.jsx:424-431 | with no match, the number is "F001-" + year + "-001" |
| VentaPage.NextNumberIsFresh | Desktop/Front-farmaco-plus/Front-farmaco-plus/src/pages/VentaPage.jsx:422-434 | the new number differs from every well-formed number of the same year in the list |
| VentaPage.IgnoredNumbersDoNotMatter | Desktop/Front-farmaco-plus/Front-farmaco-plus/src/pages/VentaPage.jsx:424-430 | inserting a malformed or other-year number anywhere does not change the next sequence |
| VentaPage.SameSequencesSameNext | Desktop/Front-farmaco-plus/Front-farmaco-plus/src/pages/VentaPage.jsx:422-431 | two lists with the same matched sequences give the same next sequence |
| VentaPage.SameNumbersSameResult | Desktop/Front-farmaco-plus/Front-farmaco-plus/src/pages/VentaPage.jsx:422-434 | lists holding the same numbers, in any order or multiplicity, give the same next number |
| VentaPage.ReorderingDoesNotMatter | Desktop/Front-farmaco-plus/Front-farmaco-plus/src/pages/VentaPage.jsx:422-434 | a permutation of the list gives the same next number |
| VentaPage.SequenceOverflow | Desktop/Front-farmaco-plus/Front-farmaco-plus/src/pages/VentaPage.jsx:431-434 | after sequence 999 the next number is "F001-" + year + "-1000" |
| VentaPage.FourDigitSequenceIgnored | Desktop/Front-farmaco-plus/Front-farmaco-plus/src/pages/VentaPage.jsx:424 | a number with a 4-digit sequence never matches the pattern |
| VentaPage.SequenceOverflowRepeats | Desktop/Front-farmaco-plus/Front-farmaco-plus/src/pages/VentaPage.jsx:424-434 | once "…-1000" is issued, the next call returns "…-1000" again |
| AlertasPage.FilterAlertas | src/pages/AlertasPage.jsx:342-354 | no longer than the input; an alert is in the result iff it is in the input and the predicate keeps it |
| AlertasPage.Keep | src/pages/AlertasPage.jsx:342-353 | the filter predicate: search term in title, description or type (lower-cased), and equal type and priority when those filters are set; `FiltersConstrainKeptAlerts` and `EmptySearchKeepsAlertsWithText` state it |
| AlertasPage.FilterDistributes | src/pages/AlertasPage.jsx:342-354 | filtering a concatenation is the concatenation of the filtered parts (order is kept) |
| AlertasPage.FilterSingle | src/pages/AlertasPage.jsx:342-354 | one alert is kept iff the predicate holds for it |
| AlertasPage.FilterIdempotent | src/pages/AlertasPage.jsx:342-354 | filtering the filtered list changes nothing |
| AlertasPage.FiltersConstrainKeptAlerts | src/pages/AlertasPage.jsx:349-353 | every kept alert matches the search, has exactly the type of a non-empty type filter and the priority of a non-empty priority filter |
| AlertasPage.EmptySearchKeepsAlertsWithText | src/pages/AlertasPage.jsx:343-347 | with empty search and filters, an alert is kept iff it has a title, a description or a type |
| AlertasPage.LowerStringIdempotent | src/pages/AlertasPage.jsx:343 | lower-casing twice is lower-casing once |
| AlertasPage.SearchIgnoresCase | src/pages/AlertasPage.jsx:343-347 | search terms that lower-case alike select the same alerts |
| AlertasPage.SearchIgnoresFieldCase | src/pages/AlertasPage.jsx:345-347 | titles that lower-case alike match the same terms |
| AlertasPage.PaginatedAlertas | src/pages/AlertasPage.jsx:356-360 | from page 1 on at most ten alerts, each one in the list and kept by the filter |
| AlertasPage.AllAlertPagesShowTheFilteredList | src/pages/AlertasPage.jsx:356-360 | the pages together show the filtered list in order |
| AlertasPage.MarkedKeepsPrefix | src/pages/AlertasPage.jsx:363-367 | marking keeps the earlier list as a prefix, grows it by at most one, and adds exactly `id` |
| AlertasPage.MarkedNoDuplicates | src/pages/AlertasPage.jsx:363-367 | marking never creates a duplicate |
| AlertasPage.MarkedIdempotent | src/pages/AlertasPage.jsx:363-367 | marking an id twice equals marking it once |
| AlertasPage.Marked | src/pages/AlertasPage.jsx:363-367 | the read list after one mark; `MarkedKeepsPrefix`, `MarkedNoDuplicates` and `MarkedIdempotent` state its properties |
| AlertasPage.MarkAll | src/pages/AlertasPage.jsx:363-367 | the read list after several marks in turn; `MarkAllSpec` states its properties |
| AlertasPage.MarkAllSpec | src/pages/AlertasPage.jsx:363-367 | after any sequence of marks the list has no duplicates, keeps the earlier ids first, and holds exactly the earlier and the marked ids |
| AlertasPage.ReadAlerts.constructor | src/pages/AlertasPage.jsx:57 | the read list starts empty |
| AlertasPage.ReadAlerts.MarcarComoLeida | src/pages/AlertasPage.jsx:363-367 | appends `id` in place only when absent; afterwards `id` is read, the other ids' status is unchanged, and there are no duplicates |
| AlertasPage.GetPrioridadColor | src/pages/AlertasPage.jsx:409-422 | the colour is "#666" iff the priority is not one of BAJA, MEDIA, ALTA, CRITICA |
| AlertasPage.PrioridadColorsDistinct | src/pages/AlertasPage.jsx:409-422 | the four priorities get four different colours |
| AlertasPage.Split | src/pages/AlertasPage.jsx:439 | `split` always yields at least one piece |
| AlertasPage.SplitJoin | src/pages/AlertasPage.jsx:439-441 | joining the pieces with the separator gives back the string, and no piece contains the separator |
| AlertasPage.CapitalizeAll | src/pages/AlertasPage.jsx:440 | `map(capitalize)`: same number of words, each capitalised in its place |
| AlertasPage.TitleCase | src/pages/AlertasPage.jsx:435-442 | the character-by-character reference: same length; '_' becomes ' ', the first character of a segment is upper-cased, the rest kept |
| AlertasPage.SplitCapitalizeJoin | src/pages/AlertasPage.jsx:437-441 | split / capitalise / join equals the reference transform |
| AlertasPage.FormatTipo | src/pages/AlertasPage.jsx:435-442 | lower-case, split at "_", capitalise, join with spaces; `FormatTipoCharacterization` and `FormatTipoMissing` state the result character by character |
| AlertasPage.FormatTipoCharacterization | src/pages/AlertasPage.jsx:435-442 | "" for empty input; otherwise the same length, '_' becomes ' ', the first character and each character after '_' is upper-cased, and the rest lower-cased |
| AlertasPage.FormatTipoMissing | src/pages/AlertasPage.jsx:436 | a missing type is shown as "" |

## Left out

- Network and browser I/O is not modelled: every `fetch` handler, `authenticatedFetch`, token refresh, `localStorage` and reloads. The model starts from the values those handlers would deliver.
- The current date is a parameter: `getNextNumeroFactura` takes `year`. `dateUtils.js` is not part of this model, so the converted birth date is a parameter of `OpenEditModal`.
- The reply that `handleEdit` receives, or the object merged from the form when there is none, is the parameter `actualizado` of `ReplaceById`.
- JavaScript `null`/`undefined` as a cédula is modelled as the empty string, which takes the same `!cedula` branches. Non-string arguments are not modelled.
- Strings are sequences of characters, not UTF-16 code units. Case mapping covers ASCII letters only, and other characters are kept.
- Sale amounts are floating-point money and are not modelled (subtotals, IVA, totals). The same holds for token validation, rendering, styles, timers and the other list pages that repeat the same pagination.
- `getNextNumeroFactura` receives the list of invoice-number strings rather than the sale records. A missing `numeroFactura` would be the text "undefined", which never matches. The `!isNaN` filter is always true for a three-digit capture, so it is not modelled separately.
- An alert field that is present but not a string would make `toLowerCase` throw. This case is not modelled: fields are `Option<string>`.
- AlertasPage.ReadAlerts.MarcarComoLeida: applies marks one after another. Under React it tests the list of the last render, so two marks of the same id before a re-render could append it twice. The model does not capture that interleaving.
- `currentPage` is an integer. A fractional page number is not modelled.
