# DNB exchange-rate extraction, modelled in Dafny

The Netlify function `netlify/functions/dnb-proxy.js` fetches DNB's daily currency page and
turns its HTML into `{ base: 'NOK', date, rates }`. This project models the part of it that
holds logic:

- `parseNumberString`, the locale-guessing number parser. The later of the last `.` and the
  last `,` is the decimal separator, and the other character is thousands grouping. It is
  modelled together with the part of JavaScript's `parseFloat` that it reaches.
- The date detector: the first `dddd-dd-dd` in the page, else the first `dd.dd.dddd`, else
  `null`.
- The table pass:
  - Tables are kept when their lower-cased header text mentions a rate keyword.
  - Each row's trimmed cells are joined with `' | '`.
  - The row's key is the first word-bounded three-capital code, and its value is the parse of
    the last numeric-looking token.
- The fallback scan, which applies the same heuristics to every trimmed non-empty line of the
  page text when the table pass found nothing.
- The final decision between the 502 answer and the success answer.

Modules, one per file:

- `JsText` (`js_text.dfy`): the JavaScript string operations involved.
  - The ECMAScript `\s` set.
  - `lastIndexOf` and a first-occurrence `replace`.
  - `trim`, `split(/\n|\r/)` and `join`.
  - ASCII `toLowerCase`.
- `NumberParser` (`number_parser.dfy`): `parseNumberString` and `parseFloat` on exact reals.
  `Finite(v)` stands for a value `Number.isFinite` accepts.
- `RowPatterns` (`row_patterns.dfy`): hand-written matchers for the source's regular
  expressions.
  - `\b([A-Z]{3})\b`, first match only.
  - The numeric-token pattern `-?\d{1,3}(?:[.,\s]\d{3})*(?:[.,]\d+)?` with `/g`. Every part
    after the leading digits is optional, so it is a greedy scan with no backtracking that
    resumes after each match.
  - The two date patterns.
  - A reference definition of the token pattern. Every token the scanner cuts out matches
    it, and no match of it begins at a position the scanner skips.
- `DnbProxy` (`dnb_proxy.dfy`): the table pass, the fallback scan and the response.
  - Pure specification functions: `TablePass`, `FallbackPass`, `FinalRates`, `Respond`.
  - Methods with loops that update the `rates` map step by step as the handler does:
    `ScanTables`, `ScanRows`, `ScanLines`, `Record`, `ExtractRates`. Each method is proved
    equal to its specification function.

The DOM is input data. A `Table` is the list of its `th` texts plus, per `tr`, the texts of
its `td`/`th` cells.

## Model

| member | source | states |
|---|---|---|
| NumberParser.ParseNumber | netlify/functions/dnb-proxy.js:5-22 | A string with no digit at all (the empty string included) parses to NaN, never to a number |
| NumberParser.ParseFloat | netlify/functions/dnb-proxy.js:21 | On a string of digits, `.` and `-`, `parseFloat` gives a number exactly when the string starts with an optional `-` followed by a digit, or by `.` and a digit |
| NumberParser.ParseFloatDecimal | netlify/functions/dnb-proxy.js:21 | `parseFloat` of sign, digits, `.`, digits and a tail not starting with a digit is the signed decimal value; the tail is ignored |
| NumberParser.ParseFloatInteger | netlify/functions/dnb-proxy.js:13 | `parseFloat` of sign and digits followed by a tail that is neither a digit nor `.` is the signed integer value |
| NumberParser.Cleaned | netlify/functions/dnb-proxy.js:12-21 | Whatever branch is taken, the string handed to `parseFloat` holds only digits, `.` and `-` |
| NumberParser.DecimalSeparator | netlify/functions/dnb-proxy.js:8-11 | No separator iff the string has neither `.` nor `,`; the separator is `.` (or `,`) iff some occurrence of it has no occurrence of the other after it |
| NumberParser.NoDigitsKept | netlify/functions/dnb-proxy.js:12-21 | Cleaning never invents a digit: a digit-free input gives a digit-free cleaned string |
| NumberParser.StripsWhitespaceFirst | netlify/functions/dnb-proxy.js:7 | The result equals the result on the input with all whitespace removed |
| NumberParser.WhitespaceIgnored | netlify/functions/dnb-proxy.js:7 | Two inputs that differ only in whitespace parse to the same value |
| NumberParser.DecimalSeparatorRule | netlify/functions/dnb-proxy.js:8-20 | For sign, grouped whole part, one separator and digits, where the whole part has only the other separator as grouping, the value is the signed whole digits (grouping dropped) plus the fraction |
| NumberParser.IntegerRule | netlify/functions/dnb-proxy.js:12-13 | An optional `-` followed by digits parses to the signed integer |
| NumberParser.FirstCommaIsPoint | netlify/functions/dnb-proxy.js:15-21 | Without any `.`, only the first comma becomes the point and later commas vanish: the value is whole digits plus all remaining digits as fraction |
| NumberParser.SecondPointStops | netlify/functions/dnb-proxy.js:18-21 | With a dot separator, `parseFloat` stops at a second `.`: the value is the whole part and the first fraction only |
| NumberParser.LeadingDigitParses | netlify/functions/dnb-proxy.js:5-22 | Any input starting with a digit or with `-` and a digit parses to a finite number |
| NumberParser.CommaDecimalExample | netlify/functions/dnb-proxy.js:15-17 | `"1.234,56"` parses to 1234.56 |
| NumberParser.DotDecimalExample | netlify/functions/dnb-proxy.js:18-20 | `"1,234.56"` parses to 1234.56 |
| NumberParser.NegativeCommaExample | netlify/functions/dnb-proxy.js:15-17 | `"-12,5"` parses to -12.5 |
| NumberParser.PaddedIntegerExample | netlify/functions/dnb-proxy.js:7-13 | `"  42  "` parses to 42 |
| NumberParser.RepeatedCommaExample | netlify/functions/dnb-proxy.js:16-17 | `"1,234,567"` parses to 1.234567 |
| NumberParser.RepeatedDotExample | netlify/functions/dnb-proxy.js:19-21 | `"1.2.3"` parses to 1.2 |
| JsText.LastIndexOf | netlify/functions/dnb-proxy.js:8-9 | -1 iff the character is absent; otherwise the index holds it and no later index does |
| JsText.ReplaceFirstAt | netlify/functions/dnb-proxy.js:17 | Replacing a character changes only its first occurrence |
| JsText.FilterMembers | netlify/functions/dnb-proxy.js:7-21 | A character survives a global removal iff it was in the input and is not removed |
| JsText.Filter | netlify/functions/dnb-proxy.js:7-21 | A global removal never lengthens the text and keeps only characters of the kept class |
| JsText.ReplaceFirst | netlify/functions/dnb-proxy.js:17 | A single-character `replace` keeps the length, and leaves the text unchanged when the character is absent |
| JsText.LowerChar | netlify/functions/dnb-proxy.js:45 | A capital becomes the lower-case letter at the same place in the alphabet; any other character stays |
| JsText.ToLower | netlify/functions/dnb-proxy.js:45 | Lower-casing keeps the length, turns each capital into the lower-case letter at the same place in the alphabet, changes no other character, and leaves no capital |
| JsText.JoinMembers | netlify/functions/dnb-proxy.js:45 | Every character of a joined text comes from one of the parts or from the separator |
| JsText.JoinStraddle | netlify/functions/dnb-proxy.js:51 | With a non-empty separator, a word sharing no character with it occurs in the joined text only inside a single part |
| JsText.Trim | netlify/functions/dnb-proxy.js:49 | The result neither starts nor ends with whitespace, and is empty iff the input is all whitespace |
| JsText.SplitLinesJoin | netlify/functions/dnb-proxy.js:68 | Joining the pieces of the split with a line feed gives back the text with every `\r` read as `\n` |
| JsText.SplitLines | netlify/functions/dnb-proxy.js:68 | The split has at least one piece and no piece contains a line break |
| RowPatterns.FindCode | netlify/functions/dnb-proxy.js:52-54 | A found code is three capitals |
| RowPatterns.FindCodeLeftmost | netlify/functions/dnb-proxy.js:52-54 | The leftmost word-bounded code is the one returned, and nothing is found iff no position holds one |
| RowPatterns.FindCodeVerbatim | netlify/functions/dnb-proxy.js:52-54 | A found code occurs verbatim in the text |
| RowPatterns.LeadingCode | netlify/functions/dnb-proxy.js:52-54 | A text that opens with a word-bounded code yields that code |
| RowPatterns.TokenMatchesPattern | netlify/functions/dnb-proxy.js:56 | Every token the scanner cuts out matches the numeric pattern: optional `-`, one to three digits, three-digit groups after `.`/`,`/whitespace, optional fraction |
| RowPatterns.NumericTokens | netlify/functions/dnb-proxy.js:56 | Every token of the global match matches the numeric pattern as a whole and starts with a digit or with `-` and a digit |
| RowPatterns.TokenPositions | netlify/functions/dnb-proxy.js:56 | The global match's positions are places where `-?\d` matches, each at or after the end of the previous match; `TokenPositionsFirst` adds that none is passed over |
| RowPatterns.TokenPositionsFirst | netlify/functions/dnb-proxy.js:56 | Each search of the global match resumes at the end of the previous match and stops at the first place a match can begin: nothing can begin before the first position, between the end of one match and the next position, or after the end of the last match |
| RowPatterns.TokensAtPositions | netlify/functions/dnb-proxy.js:56 | The i-th token is the text from the i-th position to the end of the match there, so the tokens stand verbatim in the text in text order |
| RowPatterns.LastTokenRightmost | netlify/functions/dnb-proxy.js:56-58 | The last token stands verbatim in the text, and no substring beginning after its end matches the pattern |
| RowPatterns.MatchBeginsToken | netlify/functions/dnb-proxy.js:56 | A substring matching the pattern begins where `-?\d` matches |
| RowPatterns.NoMatchSkipped | netlify/functions/dnb-proxy.js:56 | No substring beginning at a position the scan skips matches the pattern, so the global match misses no match |
| RowPatterns.GroupBeforeFraction | netlify/functions/dnb-proxy.js:56 | `"1.2345"` is cut into `"1.234"` and `"5"`: a thousands group is preferred to a fraction |
| RowPatterns.TokensParse | netlify/functions/dnb-proxy.js:56-60 | Every token matches the pattern and parses to a finite number, so the finiteness check never drops a row |
| RowPatterns.TokensExistIff | netlify/functions/dnb-proxy.js:56-57 | There is at least one token iff the text contains a digit |
| RowPatterns.LongRunSplits | netlify/functions/dnb-proxy.js:56 | `"12345"` is cut into `"123"` and `"45"` |
| RowPatterns.MinusStartsToken | netlify/functions/dnb-proxy.js:56 | `"5-3"` is cut into `"5"` and `"-3"` |
| RowPatterns.SpaceGroupsThousands | netlify/functions/dnb-proxy.js:56 | `"1 234,56"` is a single token |
| RowPatterns.MatchDateLeftmost | netlify/functions/dnb-proxy.js:39-42 | Each date pattern returns its leftmost match |
| RowPatterns.MatchDate | netlify/functions/dnb-proxy.js:39-41 | A date pattern's match stands verbatim in the text at a position holding that form, and there is none iff no position holds one |
| RowPatterns.FindDate | netlify/functions/dnb-proxy.js:36-42 | A date found stands verbatim in the text in one of the two forms, and the date stays null iff neither form occurs |
| RowPatterns.IsoDateWins | netlify/functions/dnb-proxy.js:39-40 | When an ISO date exists, the first one is the date, wherever dotted dates stand |
| RowPatterns.DottedDateFallback | netlify/functions/dnb-proxy.js:41-42 | Without any ISO date, the first dotted date is the date |
| RowPatterns.IsoAfterDottedExample | netlify/functions/dnb-proxy.js:39-42 | In `"01.05.2024 2024-05-01"` the later ISO date is chosen over the earlier dotted one |
| DnbProxy.HeaderText | netlify/functions/dnb-proxy.js:45 | The header text holds no capital, so the case-insensitive test is a substring test on it |
| DnbProxy.MentionsRates | netlify/functions/dnb-proxy.js:46 | The five-keyword test on the header text holds iff it contains `valuta` or `kurs` |
| DnbProxy.LongerKeywords | netlify/functions/dnb-proxy.js:46 | Each of the three longer keywords contains the shorter one it extends |
| DnbProxy.Qualifies | netlify/functions/dnb-proxy.js:44-46 | A table is read iff its header text contains `valuta` or `kurs`; a table without `th` cells is never read |
| DnbProxy.CapitalKursHeader | netlify/functions/dnb-proxy.js:45-46 | A table headed `KURS` in capitals is read: the keyword test ignores case |
| DnbProxy.UnrelatedTableIgnored | netlify/functions/dnb-proxy.js:44-46 | A table whose header text has neither keyword can be removed from the page without changing the entries found |
| DnbProxy.TableRowEntry | netlify/functions/dnb-proxy.js:49-54 | Rows with fewer than two cells give nothing, and the code of an entry lies inside one trimmed cell: it never straddles the separator between two cells |
| DnbProxy.CodeWithinCell | netlify/functions/dnb-proxy.js:49-54 | A code found in the joined row text occurs in one of the trimmed cells |
| DnbProxy.RowText | netlify/functions/dnb-proxy.js:49-51 | Every character of the row text comes from a cell or is the space or bar of the separator |
| DnbProxy.RowEntry | netlify/functions/dnb-proxy.js:51-62 | A row gives an entry iff it has a code and a numeric token; the key is the first code and the value is the finite parse of the last token |
| DnbProxy.NoDigitNoEntry | netlify/functions/dnb-proxy.js:56-57 | A row or line without digits gives no entry |
| DnbProxy.RowsWithoutEntries | netlify/functions/dnb-proxy.js:48-63 | Rows that each give no entry give no entries together |
| DnbProxy.TablesWithoutEntries | netlify/functions/dnb-proxy.js:44-64 | Tables none of whose rows gives an entry give no entries, whatever their headers |
| DnbProxy.TablesEntriesConcat | netlify/functions/dnb-proxy.js:44 | The entries of a page are the entries of its tables in document order |
| DnbProxy.Assign | netlify/functions/dnb-proxy.js:61 | Assignment removes no key and makes every assigned code a key |
| DnbProxy.AssignKeys | netlify/functions/dnb-proxy.js:61 | After the assignments the keys are the old keys plus the codes assigned; no key is ever removed |
| DnbProxy.AssignLastWins | netlify/functions/dnb-proxy.js:61 | A code holds the value of its last assignment |
| DnbProxy.AssignUntouched | netlify/functions/dnb-proxy.js:60-62 | A code not assigned keeps its old presence and value |
| DnbProxy.AssignConcat | netlify/functions/dnb-proxy.js:61 | Assigning two lists of entries one after the other is assigning their concatenation |
| DnbProxy.Lines | netlify/functions/dnb-proxy.js:68 | Every line is non-empty, neither starts nor ends with whitespace, and holds no line break |
| DnbProxy.TrimmedLinesConcat | netlify/functions/dnb-proxy.js:68 | The lines of two runs of pieces are the lines of the first followed by those of the second, so the lines keep the text's order and repetitions |
| DnbProxy.TrimmedLinesOne | netlify/functions/dnb-proxy.js:68 | One piece gives its trimmed text, or nothing when it is blank |
| DnbProxy.TrimmedLinesComplete | netlify/functions/dnb-proxy.js:68 | Every piece of the split that is not blank is kept, trimmed |
| DnbProxy.TrimmedLinesSound | netlify/functions/dnb-proxy.js:68 | Every line kept is a trimmed piece of the split |
| DnbProxy.LinesMembers | netlify/functions/dnb-proxy.js:68 | Every character of every line comes from the page text |
| DnbProxy.LinesWithoutEntries | netlify/functions/dnb-proxy.js:69-78 | Lines that each give no entry give no entries together |
| DnbProxy.FallbackNeedsDigit | netlify/functions/dnb-proxy.js:66-78 | A page text without digits makes the fallback find nothing |
| DnbProxy.TablePass | netlify/functions/dnb-proxy.js:44-64 | The table map has only codes as keys and is empty iff no row of a table that is read gives an entry |
| DnbProxy.FallbackPass | netlify/functions/dnb-proxy.js:66-79 | The fallback map has only codes as keys and is empty iff no line gives an entry |
| DnbProxy.FinalRates | netlify/functions/dnb-proxy.js:66-79 | The final map is the table map when some table row gave an entry and the fallback map otherwise; its keys are codes, and it is empty iff neither pass found an entry |
| DnbProxy.Respond | netlify/functions/dnb-proxy.js:82-88 | The answer is the failure iff neither pass found an entry; the failure carries 502 and "No rates parsed from DNB page"; a success carries 200, base `NOK`, the detected date and a non-empty final map |
| DnbProxy.NoCodeFails | netlify/functions/dnb-proxy.js:52-84 | A page where no row text and no line holds a code answers with the 502 failure |
| DnbProxy.Record | netlify/functions/dnb-proxy.js:51-62 | The step that matches the code, takes the last token, parses it and stores it updates the map exactly as the row's entry prescribes |
| DnbProxy.ScanRow | netlify/functions/dnb-proxy.js:49-62 | One pass of the row loop's body skips a row of fewer than two cells and otherwise updates the map exactly as the row's entry prescribes |
| DnbProxy.ScanRows | netlify/functions/dnb-proxy.js:48-63 | The row loop leaves the map equal to assigning the entries of the rows in order |
| DnbProxy.ScanTables | netlify/functions/dnb-proxy.js:44-64 | The nested table and row loops produce exactly the table pass map |
| DnbProxy.ScanLines | netlify/functions/dnb-proxy.js:69-78 | The line loop leaves the map equal to assigning the entries of the lines in order |
| DnbProxy.ExtractRates | netlify/functions/dnb-proxy.js:35-86 | The handler's steps (date detection, table loops, conditional fallback loop, decision) produce exactly the specified response |
| DnbProxy.TableRowExample | netlify/functions/dnb-proxy.js:49-62 | The cells `USD`, `Buy`, `9,50`, `9,75` give USD ↦ 9.75 |
| DnbProxy.TablePassExample | netlify/functions/dnb-proxy.js:44-64 | A table headed `Valuta` with that row gives the map USD ↦ 9.75 |
| DnbProxy.RespondExample | netlify/functions/dnb-proxy.js:44-88 | That table on a page without dates answers 200, `NOK`, no date, USD ↦ 9.75 |
| DnbProxy.JpyTokens | netlify/functions/dnb-proxy.js:73 | In `"JPY rate today: 0.065"` the only token is `"0.065"`: `.065` is read as a thousands group |
| DnbProxy.FallbackExample | netlify/functions/dnb-proxy.js:66-88 | With no tables, the line `"JPY rate today: 0.065"` leaves the table pass empty and the fallback gives JPY ↦ 0.065 |

## Left out

- The HTTP fetch, its User-Agent header and the pass-through of an upstream error status (netlify/functions/dnb-proxy.js:26-30): network I/O. The page text is a parameter.
- The cheerio DOM loading, the `table`/`th`/`tr`/`td,th` selections and `.text()` (netlify/functions/dnb-proxy.js:31, 34, 45, 48-49): a foreign library. Tables, header texts and cell texts are input data.
- JSON serialisation, the response headers, and the `try`/`catch` with `console.error` and the 500 answer (netlify/functions/dnb-proxy.js:83, 87-95): envelope plumbing. Only the 502-or-success decision is modelled, as a datatype.
- IEEE-754 rounding in `parseFloat` and overflow to Infinity in `Number.isFinite` (netlify/functions/dnb-proxy.js:13, 21, 60): numbers are exact reals. So the finiteness guard never rejects a token here; with floats it would reject digit strings too long for a double.
- NumberParser.ParseFloat: modelled only on strings of digits, `.` and `-`. These are the only strings `parseNumberString` hands it; exponents, `Infinity` and leading whitespace are not modelled.
- NumberParser.ParseNumber: `null` and `undefined` arguments are not modelled; the argument is always a string, and the empty string is covered.
- JsText.ToLower and the `/i` flag: case folding is ASCII only. Non-ASCII letters whose lower case is an ASCII letter (the Kelvin sign) are not folded.
- The key order of the `rates` object: the map is unordered.
- The date patterns run on the raw HTML, as in the source. Any HTML markup inside the page text is just characters to the model.
- `dnb_proxy.py`: a pass-through that fetches a fixed URL and returns the raw HTML, with no logic of its own.
