/** The rate extraction of the DNB proxy handler: which tables it reads, what each row or
    line of text contributes to the `rates` map, the fallback scan over the page text, and
    the choice between the 502 answer and the `{ base, date, rates }` answer. The DOM is
    given as data: for each `<table>`, the texts of its `th` elements and, per `tr`, the
    texts of its `td` and `th` cells. */
module DnbProxy {
  import opened JsText
  import opened NumberParser
  import opened RowPatterns

  /** A `<table>` as the handler sees it. */
  datatype Table = Table(headers: seq<string>, rows: seq<seq<string>>)

  /** An assignment `rates[code] = value`. */
  datatype Entry = Entry(code: string, value: real)

  /** What the handler answers once the page has been fetched. */
  datatype Response =
    | Failure(status: int, error: string)
    | Success(status: int, base: string, date: Option<string>, rates: map<string, real>)

  const NoRatesStatus := 502
  const NoRatesError := "No rates parsed from DNB page"
  const OkStatus := 200
  const Base := "NOK"

  // ---------------------------------------------------------------------------------
  // Which tables are read

  /** The `th` texts, lower-cased and joined with single spaces: a text without capitals,
      so the `/i` keyword test is a plain substring test on it. */
  function HeaderText(t: Table): (r: string)
    ensures forall k :: 0 <= k < |r| ==> !IsUpper(r[k])
  {
    var lowered := seq(|t.headers|, i requires 0 <= i < |t.headers| => ToLower(t.headers[i]));
    LoweredJoin(lowered);
    Join(lowered, " ")
  }

  lemma LoweredJoin(parts: seq<string>)
    requires forall i, k :: 0 <= i < |parts| && 0 <= k < |parts[i]| ==> !IsUpper(parts[i][k])
    ensures forall k :: 0 <= k < |Join(parts, " ")| ==> !IsUpper(Join(parts, " ")[k])
  {
    var s := Join(parts, " ");
    JoinMembers(parts, " ");
    forall k | 0 <= k < |s| ensures !IsUpper(s[k]) {
      assert s[k] in s;
      if s[k] != ' ' {
        var i :| 0 <= i < |parts| && s[k] in parts[i];
        var j :| 0 <= j < |parts[i]| && parts[i][j] == s[k];
      }
    }
  }

  /** `/valuta|kurs|valutakode|valutae|kursen/i` finds a match in `h`. The three longer
      keywords extend the two shorter ones, so only `valuta` and `kurs` decide. */
  predicate MentionsRates(h: string)
    ensures MentionsRates(h) <==> Contains(h, "valuta") || Contains(h, "kurs")
  {
    LongerKeywords(h);
    Contains(h, "valuta") || Contains(h, "kurs") || Contains(h, "valutakode") || Contains(h, "valutae") || Contains(h, "kursen")
  }

  /** A text containing one of the longer keywords contains the shorter one it extends. */
  lemma LongerKeywords(h: string)
    ensures Contains(h, "valutakode") || Contains(h, "valutae") ==> Contains(h, "valuta")
    ensures Contains(h, "kursen") ==> Contains(h, "kurs")
  {
    if Contains(h, "valutakode") {
      assert "valuta" + "kode" == "valutakode";
      ContainsPrefix(h, "valuta", "kode");
    }
    if Contains(h, "valutae") {
      assert "valuta" + "e" == "valutae";
      ContainsPrefix(h, "valuta", "e");
    }
    if Contains(h, "kursen") {
      assert "kurs" + "en" == "kursen";
      ContainsPrefix(h, "kurs", "en");
    }
  }

  /** A table is read when its header text contains `valuta` or `kurs`; a table without
      `th` cells never is. */
  predicate Qualifies(t: Table)
    ensures Qualifies(t) <==> Contains(HeaderText(t), "valuta") || Contains(HeaderText(t), "kurs")
    ensures t.headers == [] ==> !Qualifies(t)
  {
    MentionsRates(HeaderText(t))
  }

  // ---------------------------------------------------------------------------------
  // What a row or a line contributes

  /** The entry a row's or a line's text yields: its first code, with the value of its last
      numeric token, provided that value is finite. */
  function RowEntry(text: string): (r: Option<Entry>)
    ensures r.Some? <==> FindCode(text).Some? && NumericTokens(text) != []
    ensures r.Some? ==> r.value.code == FindCode(text).value && IsCurrencyCode(r.value.code)
    ensures r.Some? ==> ParseNumber(NumericTokens(text)[|NumericTokens(text)| - 1]) == Finite(r.value.value)
  {
    match FindCode(text)
    case None => None
    case Some(code) =>
      var tokens := NumericTokens(text);
      if tokens == [] then None
      else
        var raw := tokens[|tokens| - 1];
        assert ParseNumber(raw).Finite? by {
          TokensParse(text);
        }
        match ParseNumber(raw)
        case NaN => None
        case Finite(v) => Some(Entry(code, v))
  }

  /** A row's cells, trimmed and joined with `" | "`: every character comes from a cell or
      from the separator. */
  function RowText(cells: seq<string>): (r: string)
    ensures forall c :: c in r ==> c == ' ' || c == '|' || exists i :: 0 <= i < |cells| && c in cells[i]
  {
    var trimmed := seq(|cells|, i requires 0 <= i < |cells| => Trim(cells[i]));
    TrimmedJoinMembers(cells, trimmed);
    Join(trimmed, " | ")
  }

  lemma TrimmedJoinMembers(cells: seq<string>, trimmed: seq<string>)
    requires |trimmed| == |cells| && forall i :: 0 <= i < |cells| ==> trimmed[i] == Trim(cells[i])
    ensures forall c :: c in Join(trimmed, " | ") ==> c == ' ' || c == '|' || exists i :: 0 <= i < |cells| && c in cells[i]
  {
    var sep := " | ";
    JoinMembers(trimmed, sep);
    forall c | c in Join(trimmed, sep) && c != ' ' && c != '|'
      ensures exists i :: 0 <= i < |cells| && c in cells[i]
    {
      assert c !in sep;
      var i :| 0 <= i < |trimmed| && c in trimmed[i];
      TrimMembers(cells[i]);
      assert c in cells[i];
    }
  }

  /** The entry a table row yields; a row of fewer than two cells yields none. The code of
      an entry stands inside a single trimmed cell: it cannot straddle the `" | "` between
      two cells. */
  function TableRowEntry(cells: seq<string>): (r: Option<Entry>)
    ensures |cells| < 2 ==> r == None
    ensures r.Some? ==> exists i :: 0 <= i < |cells| && Contains(Trim(cells[i]), r.value.code)
  {
    if |cells| < 2 then None
    else
      CodeWithinCell(cells);
      RowEntry(RowText(cells))
  }

  /** No letter of a code occurs in the separator `" | "`. */
  lemma CodeAvoidsBar(code: string)
    requires IsCurrencyCode(code)
    ensures |code| > 0 && forall k :: 0 <= k < |code| ==> code[k] !in " | "
  {
  }

  /** A code found in a row's text occurs in one of its trimmed cells. */
  lemma CodeWithinCell(cells: seq<string>)
    ensures FindCode(RowText(cells)).Some? ==>
      exists i :: 0 <= i < |cells| && Contains(Trim(cells[i]), FindCode(RowText(cells)).value)
  {
    var text := RowText(cells);
    if FindCode(text).Some? {
      var trimmed := seq(|cells|, i requires 0 <= i < |cells| => Trim(cells[i]));
      assert text == Join(trimmed, " | ");
      var code := FindCode(text).value;
      FindCodeVerbatim(text);
      var p :| 0 <= p <= |text| - 3 && OccursAt(text, code, p);
      CodeAvoidsBar(code);
      JoinStraddle(trimmed, " | ", code, p);
      var k :| 0 <= k < |trimmed| && Contains(trimmed[k], code);
      assert trimmed[k] == Trim(cells[k]);
    }
  }

  function Present(e: Option<Entry>): seq<Entry>
  {
    if e.Some? then [e.value] else []
  }

  /** The entries of a table's rows, in document order. */
  function RowsEntries(rows: seq<seq<string>>): (r: seq<Entry>)
    ensures forall k :: 0 <= k < |r| ==> IsCurrencyCode(r[k].code)
  {
    if rows == [] then []
    else RowsEntries(rows[..|rows| - 1]) + Present(TableRowEntry(rows[|rows| - 1]))
  }

  /** The entries of a table: none unless its headers mention rates. */
  function TableEntries(t: Table): (r: seq<Entry>)
    ensures forall k :: 0 <= k < |r| ==> IsCurrencyCode(r[k].code)
  {
    if Qualifies(t) then RowsEntries(t.rows) else []
  }

  /** The entries of all tables, table after table. */
  function TablesEntries(ts: seq<Table>): (r: seq<Entry>)
    ensures forall k :: 0 <= k < |r| ==> IsCurrencyCode(r[k].code)
  {
    if ts == [] then []
    else TablesEntries(ts[..|ts| - 1]) + TableEntries(ts[|ts| - 1])
  }

  // ---------------------------------------------------------------------------------
  // The fallback over the page text

  /** The trimmed pieces that are not blank. */
  function TrimmedLines(pieces: seq<string>): (r: seq<string>)
    ensures forall k :: 0 <= k < |r| ==> r[k] != [] && !IsSpace(r[k][0]) && !IsSpace(r[k][|r[k]| - 1])
  {
    if pieces == [] then []
    else
      var line := Trim(pieces[|pieces| - 1]);
      TrimmedLines(pieces[..|pieces| - 1]) + (if line == [] then [] else [line])
  }

  /** `text.split(/\n|\r/).map(r => r.trim()).filter(Boolean)`: non-blank lines without
      white space at either end and without line breaks. */
  function Lines(text: string): (r: seq<string>)
    ensures forall k :: 0 <= k < |r| ==> r[k] != [] && !IsSpace(r[k][0]) && !IsSpace(r[k][|r[k]| - 1])
    ensures forall k, c :: 0 <= k < |r| && c in r[k] ==> !IsLineBreak(c)
  {
    TrimmedLinesNoBreaks(SplitLines(text));
    TrimmedLines(SplitLines(text))
  }

  /** Trimming and dropping blank pieces works piece by piece: the lines of two runs of
      pieces are the lines of the first followed by those of the second, so the lines keep
      the order and the repetitions of the text. */
  lemma {:induction false} TrimmedLinesConcat(a: seq<string>, b: seq<string>)
    ensures TrimmedLines(a + b) == TrimmedLines(a) + TrimmedLines(b)
    decreases |b|
  {
    if b == [] {
      assert a + b == a;
    } else {
      var front, last := b[..|b| - 1], b[|b| - 1];
      assert (a + b)[..|a + b| - 1] == a + front;
      assert (a + b)[|a + b| - 1] == last;
      TrimmedLinesLast(a + b);
      TrimmedLinesLast(b);
      TrimmedLinesConcat(a, front);
    }
  }

  /** A single piece gives its trimmed text, or nothing when it is blank. */
  lemma TrimmedLinesOne(x: string)
    ensures TrimmedLines([x]) == if Trim(x) == [] then [] else [Trim(x)]
  {
    assert [x][..0] == [];
  }

  /** Every piece that is not blank is kept, trimmed. */
  lemma {:induction false} TrimmedLinesComplete(pieces: seq<string>)
    ensures forall k :: 0 <= k < |pieces| && Trim(pieces[k]) != [] ==> Trim(pieces[k]) in TrimmedLines(pieces)
  {
    if pieces != [] {
      var init := pieces[..|pieces| - 1];
      TrimmedLinesComplete(init);
      forall k | 0 <= k < |pieces| - 1 && Trim(pieces[k]) != [] ensures Trim(pieces[k]) in TrimmedLines(pieces) {
        assert pieces[k] == init[k];
      }
    }
  }

  /** Every line kept is a trimmed piece. */
  lemma {:induction false} TrimmedLinesSound(pieces: seq<string>)
    ensures forall x :: x in TrimmedLines(pieces) ==> exists k :: 0 <= k < |pieces| && x == Trim(pieces[k])
  {
    if pieces != [] {
      var init := pieces[..|pieces| - 1];
      var line := Trim(pieces[|pieces| - 1]);
      var kept: seq<string> := if line == [] then [] else [line];
      TrimmedLinesSound(init);
      TrimmedLinesLast(pieces);
      forall x | x in TrimmedLines(pieces) ensures exists k :: 0 <= k < |pieces| && x == Trim(pieces[k]) {
        assert x in TrimmedLines(init) || x in kept;
        if x in TrimmedLines(init) {
          var k :| 0 <= k < |init| && x == Trim(init[k]);
          PrefixIndex(pieces, k);
        } else {
          assert x == Trim(pieces[|pieces| - 1]);
        }
      }
    }
  }

  lemma PrefixIndex(pieces: seq<string>, k: nat)
    requires k < |pieces| - 1
    ensures pieces[..|pieces| - 1][k] == pieces[k]
  {
  }

  lemma TrimmedLinesLast(pieces: seq<string>)
    requires pieces != []
    ensures var line := Trim(pieces[|pieces| - 1]);
      TrimmedLines(pieces) == TrimmedLines(pieces[..|pieces| - 1]) + (if line == [] then [] else [line])
  {
  }

  lemma TrimmedLinesNoBreaks(pieces: seq<string>)
    requires forall k :: 0 <= k < |pieces| ==> forall c :: c in pieces[k] ==> !IsLineBreak(c)
    ensures forall k, c :: 0 <= k < |TrimmedLines(pieces)| && c in TrimmedLines(pieces)[k] ==> !IsLineBreak(c)
  {
    var r := TrimmedLines(pieces);
    TrimmedLinesSound(pieces);
    forall k, c | 0 <= k < |r| && c in r[k] ensures !IsLineBreak(c) {
      assert r[k] in r;
      var j :| 0 <= j < |pieces| && r[k] == Trim(pieces[j]);
      TrimMembers(pieces[j]);
    }
  }

  /** The entries of the lines, in order. */
  function LinesEntries(lines: seq<string>): (r: seq<Entry>)
    ensures forall k :: 0 <= k < |r| ==> IsCurrencyCode(r[k].code)
  {
    if lines == [] then []
    else LinesEntries(lines[..|lines| - 1]) + Present(RowEntry(lines[|lines| - 1]))
  }

  lemma {:induction false} TrimmedLinesMembers(pieces: seq<string>, text: string)
    requires forall k, c :: 0 <= k < |pieces| && c in pieces[k] ==> c in text
    ensures forall k, c :: 0 <= k < |TrimmedLines(pieces)| && c in TrimmedLines(pieces)[k] ==> c in text
  {
    if pieces != [] {
      var init := pieces[..|pieces| - 1];
      var last := pieces[|pieces| - 1];
      TrimmedLinesMembers(init, text);
      TrimMembers(last);
      assert forall c :: c in last ==> c in text;
    }
  }

  /** Every character of a line comes from the text. */
  lemma LinesMembers(text: string)
    ensures forall k, c :: 0 <= k < |Lines(text)| && c in Lines(text)[k] ==> c in text
  {
    SplitLinesMembers(text);
    TrimmedLinesMembers(SplitLines(text), text);
  }

  /** Rows that each give no entry give no entries together. */
  lemma {:induction false} RowsWithoutEntries(rows: seq<seq<string>>)
    requires forall j :: 0 <= j < |rows| ==> TableRowEntry(rows[j]) == None
    ensures RowsEntries(rows) == []
  {
    if rows != [] {
      RowsWithoutEntries(rows[..|rows| - 1]);
    }
  }

  /** Tables none of whose rows gives an entry give no entries, whatever their headers. */
  lemma {:induction false} TablesWithoutEntries(tables: seq<Table>)
    requires forall i, j :: 0 <= i < |tables| && 0 <= j < |tables[i].rows| ==> TableRowEntry(tables[i].rows[j]) == None
    ensures TablesEntries(tables) == []
  {
    if tables != [] {
      var front := tables[..|tables| - 1];
      forall i | 0 <= i < |front| ensures front[i] == tables[i] {
      }
      TablesWithoutEntries(front);
      RowsWithoutEntries(tables[|tables| - 1].rows);
    }
  }

  /** Lines that each give no entry give no entries together. */
  lemma {:induction false} LinesWithoutEntries(lines: seq<string>)
    requires forall k :: 0 <= k < |lines| ==> RowEntry(lines[k]) == None
    ensures LinesEntries(lines) == []
  {
    if lines != [] {
      LinesWithoutEntries(lines[..|lines| - 1]);
    }
  }

  // ---------------------------------------------------------------------------------
  // The rates map

  /** `rates[code] = value` for each entry in turn: no key is removed, and every code
      assigned becomes a key. */
  function Assign(rates: map<string, real>, es: seq<Entry>): (r: map<string, real>)
    ensures rates.Keys <= r.Keys
    ensures forall i :: 0 <= i < |es| ==> es[i].code in r
  {
    if es == [] then rates
    else
      var last := es[|es| - 1];
      Assign(rates, es[..|es| - 1])[last.code := last.value]
  }

  /** The map after the table pass: its keys are codes, and it is empty exactly when no
      row of a table that is read gives an entry. */
  function TablePass(tables: seq<Table>): (r: map<string, real>)
    ensures forall k :: k in r ==> IsCurrencyCode(k)
    ensures |r| == 0 <==> TablesEntries(tables) == []
  {
    AssignedCodes(TablesEntries(tables));
    EmptyAssign(TablesEntries(tables));
    Assign(map[], TablesEntries(tables))
  }

  /** The map after the fallback scan of the text, which starts from the empty map: its
      keys are codes, and it is empty exactly when no line gives an entry. */
  function FallbackPass(text: string): (r: map<string, real>)
    ensures forall k :: k in r ==> IsCurrencyCode(k)
    ensures |r| == 0 <==> LinesEntries(Lines(text)) == []
  {
    AssignedCodes(LinesEntries(Lines(text)));
    EmptyAssign(LinesEntries(Lines(text)));
    Assign(map[], LinesEntries(Lines(text)))
  }

  /** The map the handler ends with: the table map when some table row gave an entry, and
      the fallback map otherwise. Every key is a code, and the map is empty exactly when
      neither pass found an entry. */
  function FinalRates(text: string, tables: seq<Table>): (r: map<string, real>)
    ensures TablesEntries(tables) != [] ==> r == TablePass(tables)
    ensures TablesEntries(tables) == [] ==> r == FallbackPass(text)
    ensures forall k :: k in r ==> IsCurrencyCode(k)
    ensures |r| == 0 <==> TablesEntries(tables) == [] && LinesEntries(Lines(text)) == []
  {
    if |TablePass(tables)| == 0 then FallbackPass(text) else TablePass(tables)
  }

  /** The handler's answer for a fetched page: the 502 failure exactly when neither pass
      found an entry, and otherwise a success with base `NOK`, the detected date and a
      non-empty map. */
  function Respond(text: string, tables: seq<Table>): (r: Response)
    ensures r.Failure? <==> TablesEntries(tables) == [] && LinesEntries(Lines(text)) == []
    ensures r.Failure? ==> r.status == 502 && r.error == "No rates parsed from DNB page"
    ensures r.Success? ==> r.status == 200 && r.base == "NOK" && r.date == FindDate(text)
    ensures r.Success? ==> r.rates == FinalRates(text, tables) && |r.rates| > 0
  {
    var rates := FinalRates(text, tables);
    if |rates| == 0 then Failure(NoRatesStatus, NoRatesError)
    else Success(OkStatus, Base, FindDate(text), rates)
  }

  // ---------------------------------------------------------------------------------
  // Properties of the rates map

  /** A code is a key after the assignments exactly when it was one before or some entry
      carries it: `rates` only grows. */
  lemma {:induction false} AssignKeys(rates: map<string, real>, es: seq<Entry>)
    ensures forall k :: k in Assign(rates, es) <==> k in rates || exists i :: 0 <= i < |es| && es[i].code == k
  {
    if es != [] {
      var init := es[..|es| - 1];
      AssignKeys(rates, init);
      forall k
        ensures k in Assign(rates, es) <==> k in rates || exists i :: 0 <= i < |es| && es[i].code == k
      {
        if exists i :: 0 <= i < |es| && es[i].code == k {
          var i :| 0 <= i < |es| && es[i].code == k;
          if i < |es| - 1 {
            assert init[i].code == k;
          }
        }
        if exists i :: 0 <= i < |init| && init[i].code == k {
          var i :| 0 <= i < |init| && init[i].code == k;
          assert es[i].code == k;
        }
      }
    }
  }

  /** The value of a code is that of the last entry carrying it: a later row for the same
      code overwrites an earlier one. */
  lemma {:induction false} AssignLastWins(rates: map<string, real>, es: seq<Entry>, i: nat)
    requires i < |es|
    requires forall j :: i < j < |es| ==> es[j].code != es[i].code
    ensures es[i].code in Assign(rates, es) && Assign(rates, es)[es[i].code] == es[i].value
  {
    if i < |es| - 1 {
      var init := es[..|es| - 1];
      assert forall j :: i < j < |init| ==> init[j].code != init[i].code;
      AssignLastWins(rates, init, i);
    }
  }

  /** A code no entry carries keeps its old value, or stays absent. */
  lemma {:induction false} AssignUntouched(rates: map<string, real>, es: seq<Entry>, code: string)
    requires forall j :: 0 <= j < |es| ==> es[j].code != code
    ensures code in Assign(rates, es) <==> code in rates
    ensures code in rates ==> Assign(rates, es)[code] == rates[code]
  {
    if es != [] {
      AssignUntouched(rates, es[..|es| - 1], code);
    }
  }

  /** Assigning two runs of entries is assigning the first, then the second. */
  lemma {:induction false} AssignConcat(rates: map<string, real>, a: seq<Entry>, b: seq<Entry>)
    ensures Assign(rates, a + b) == Assign(Assign(rates, a), b)
    decreases |b|
  {
    if b == [] {
      assert a + b == a;
    } else {
      assert (a + b)[..|a + b| - 1] == a + b[..|b| - 1];
      AssignConcat(rates, a, b[..|b| - 1]);
    }
  }

  lemma AssignedCodes(es: seq<Entry>)
    requires forall i :: 0 <= i < |es| ==> IsCurrencyCode(es[i].code)
    ensures forall k :: k in Assign(map[], es) ==> IsCurrencyCode(k)
  {
    AssignKeys(map[], es);
  }

  // ---------------------------------------------------------------------------------
  // Properties of the table pass

  lemma {:induction false} TablesEntriesConcat(a: seq<Table>, b: seq<Table>)
    ensures TablesEntries(a + b) == TablesEntries(a) + TablesEntries(b)
    decreases |b|
  {
    if b == [] {
      assert a + b == a;
    } else {
      var front, last := b[..|b| - 1], b[|b| - 1];
      assert (a + b)[..|a + b| - 1] == a + front;
      assert (a + b)[|a + b| - 1] == last;
      TablesEntriesLast(a + b);
      TablesEntriesLast(b);
      TablesEntriesConcat(a, front);
      EntriesAssoc(TablesEntries(a), TablesEntries(front), TableEntries(last));
    }
  }

  lemma TablesEntriesLast(ts: seq<Table>)
    requires ts != []
    ensures TablesEntries(ts) == TablesEntries(ts[..|ts| - 1]) + TableEntries(ts[|ts| - 1])
  {
  }

  lemma EntriesAssoc(x: seq<Entry>, y: seq<Entry>, z: seq<Entry>)
    ensures x + y + z == x + (y + z)
  {
  }

  lemma UnqualifiedNoEntries(t: Table)
    requires !Qualifies(t)
    ensures TablesEntries([t]) == []
  {
    assert [t][..0] == [];
  }

  /** A table whose headers mention neither `valuta` nor `kurs` changes nothing, wherever it
      stands among the tables. */
  lemma UnrelatedTableIgnored(before: seq<Table>, t: Table, after: seq<Table>)
    requires !Contains(HeaderText(t), "valuta") && !Contains(HeaderText(t), "kurs")
    ensures TablesEntries(before + [t] + after) == TablesEntries(before + after)
  {
    UnqualifiedNoEntries(t);
    TablesEntriesConcat(before + [t], after);
    TablesEntriesConcat(before, [t]);
    TablesEntriesConcat(before, after);
    assert TablesEntries(before + [t]) == TablesEntries(before);
  }

  // ---------------------------------------------------------------------------------
  // Properties of the answer

  /** A row or line without a digit yields no entry. */
  lemma NoDigitNoEntry(text: string)
    requires forall c :: c in text ==> !IsDigit(c)
    ensures RowEntry(text) == None
  {
    TokensExistIff(text);
    assert forall k :: 0 <= k < |text| ==> text[k] in text;
  }

  /** A page text without a digit gives the fallback nothing to store. */
  lemma FallbackNeedsDigit(text: string)
    requires forall k :: 0 <= k < |text| ==> !IsDigit(text[k])
    ensures FallbackPass(text) == map[]
  {
    var lines := Lines(text);
    LinesMembers(text);
    assert forall c :: c in text ==> !IsDigit(c);
    forall k | 0 <= k < |lines| ensures RowEntry(lines[k]) == None {
      NoDigitNoEntry(lines[k]);
    }
    LinesWithoutEntries(lines);
  }

  /** Assigning entries to the empty map leaves it empty only when there are none. */
  lemma EmptyAssign(es: seq<Entry>)
    ensures |Assign(map[], es)| == 0 <==> es == []
  {
    AssignKeys(map[], es);
    if es != [] {
      assert es[0].code in Assign(map[], es);
    }
  }

  /** A page on which no row text of any table and no line of the text holds a code
      answers with the 502 failure. */
  lemma NoCodeFails(text: string, tables: seq<Table>)
    requires forall i, j :: 0 <= i < |tables| && 0 <= j < |tables[i].rows| ==> FindCode(RowText(tables[i].rows[j])) == None
    requires forall k :: 0 <= k < |Lines(text)| ==> FindCode(Lines(text)[k]) == None
    ensures Respond(text, tables) == Failure(502, "No rates parsed from DNB page")
  {
    TablesWithoutEntries(tables);
    LinesWithoutEntries(Lines(text));
  }

  // ---------------------------------------------------------------------------------
  // The handler, step by step

  lemma AssignStep(rates: map<string, real>, es: seq<Entry>, e: Option<Entry>)
    ensures Assign(rates, es + Present(e)) == Assign(Assign(rates, es), Present(e))
  {
    AssignConcat(rates, es, Present(e));
  }

  lemma TablesEntriesStep(rates: map<string, real>, tables: seq<Table>, i: nat)
    requires i < |tables|
    ensures Assign(rates, TablesEntries(tables[..i + 1])) == Assign(Assign(rates, TablesEntries(tables[..i])), TableEntries(tables[i]))
  {
    assert tables[..i + 1][..i] == tables[..i];
    AssignConcat(rates, TablesEntries(tables[..i]), TableEntries(tables[i]));
  }

  lemma RowsEntriesStep(rates: map<string, real>, rows: seq<seq<string>>, j: nat)
    requires j < |rows|
    ensures Assign(rates, RowsEntries(rows[..j + 1])) == Assign(Assign(rates, RowsEntries(rows[..j])), Present(TableRowEntry(rows[j])))
  {
    assert rows[..j + 1][..j] == rows[..j];
    AssignStep(rates, RowsEntries(rows[..j]), TableRowEntry(rows[j]));
  }

  lemma LinesEntriesStep(rates: map<string, real>, lines: seq<string>, k: nat)
    requires k < |lines|
    ensures Assign(rates, LinesEntries(lines[..k + 1])) == Assign(Assign(rates, LinesEntries(lines[..k])), Present(RowEntry(lines[k])))
  {
    assert lines[..k + 1][..k] == lines[..k];
    AssignStep(rates, LinesEntries(lines[..k]), RowEntry(lines[k]));
  }

  /** One row's or line's text: take its code, take its last numeric token, parse it, and
      store the value under the code when the value is finite. */
  method Record(rates: map<string, real>, text: string) returns (updated: map<string, real>)
    ensures updated == Assign(rates, Present(RowEntry(text)))
  {
    updated := rates;
    var codeMatch := FindCode(text);
    if codeMatch.None? {
      return;
    }
    var code := codeMatch.value;
    var numMatches := NumericTokens(text);
    if |numMatches| == 0 {
      return;
    }
    var raw := numMatches[|numMatches| - 1];
    var val := ParseNumber(raw);
    if val.Finite? {
      updated := rates[code := val.value];
      assert RowEntry(text) == Some(Entry(code, val.value));
      AssignSingle(rates, Entry(code, val.value));
    }
  }

  lemma LongRowEntry(cells: seq<string>)
    requires |cells| >= 2
    ensures TableRowEntry(cells) == RowEntry(RowText(cells))
  {
  }

  /** The body of the row loop: a row of fewer than two cells is skipped, any other row is
      recorded through its joined text. */
  method ScanRow(rates: map<string, real>, cells: seq<string>) returns (updated: map<string, real>)
    ensures updated == Assign(rates, Present(TableRowEntry(cells)))
  {
    if |cells| < 2 {
      return rates;
    }
    LongRowEntry(cells);
    updated := Record(rates, RowText(cells));
  }

  /** The row loop of one table whose headers mention rates: rows of fewer than two cells
      are skipped. */
  method ScanRows(rates0: map<string, real>, rows: seq<seq<string>>) returns (rates: map<string, real>)
    ensures rates == Assign(rates0, RowsEntries(rows))
  {
    rates := rates0;
    var j := 0;
    while j < |rows|
      invariant 0 <= j <= |rows|
      invariant rates == Assign(rates0, RowsEntries(rows[..j]))
    {
      RowsEntriesStep(rates0, rows, j);
      rates := ScanRow(rates, rows[j]);
      j := j + 1;
    }
    assert rows[..j] == rows;
  }

  /** The table pass: the rows of every table whose headers mention rates. */
  method ScanTables(tables: seq<Table>) returns (rates: map<string, real>)
    ensures rates == TablePass(tables)
  {
    rates := map[];
    var i := 0;
    while i < |tables|
      invariant 0 <= i <= |tables|
      invariant rates == Assign(map[], TablesEntries(tables[..i]))
    {
      var table := tables[i];
      TablesEntriesStep(map[], tables, i);
      if Qualifies(table) {
        rates := ScanRows(rates, table.rows);
      }
      i := i + 1;
    }
    assert tables[..i] == tables;
  }

  /** The fallback loop over the trimmed, non-blank lines, continuing from the map the
      table pass left. */
  method ScanLines(rates0: map<string, real>, textRows: seq<string>) returns (rates: map<string, real>)
    ensures rates == Assign(rates0, LinesEntries(textRows))
  {
    rates := rates0;
    var k := 0;
    while k < |textRows|
      invariant 0 <= k <= |textRows|
      invariant rates == Assign(rates0, LinesEntries(textRows[..k]))
    {
      LinesEntriesStep(rates0, textRows, k);
      rates := Record(rates, textRows[k]);
      k := k + 1;
    }
    assert textRows[..k] == textRows;
  }

  /** The handler after the fetch: detect the date, run the table pass, fall back to the
      lines of the text when it found nothing, and answer. */
  method ExtractRates(text: string, tables: seq<Table>) returns (response: Response)
    ensures response == Respond(text, tables)
  {
    var foundDate: Option<string> := None;
    var dateMatchIso := MatchDate(text, Iso);
    if dateMatchIso.Some? {
      foundDate := dateMatchIso;
    }
    var dateMatchDot := MatchDate(text, Dotted);
    if foundDate.None? && dateMatchDot.Some? {
      foundDate := dateMatchDot;
    }

    var rates := ScanTables(tables);
    if |rates| == 0 {
      assert rates == map[];
      var textRows := Lines(text);
      rates := ScanLines(rates, textRows);
    }

    if |rates| == 0 {
      return Failure(NoRatesStatus, NoRatesError);
    }
    return Success(OkStatus, Base, foundDate, rates);
  }

  /** Cells without white space at either end are joined as they are. */
  lemma RowTextTrimmed(cells: seq<string>)
    requires forall i :: 0 <= i < |cells| ==> Trim(cells[i]) == cells[i]
    ensures RowText(cells) == Join(cells, " | ")
  {
    var trimmed := seq(|cells|, i requires 0 <= i < |cells| => Trim(cells[i]));
    forall i | 0 <= i < |cells| ensures trimmed[i] == cells[i] {
    }
    assert trimmed == cells;
  }

  // ---------------------------------------------------------------------------------
  // Examples

  lemma UsdCellsTrimmed(cells: seq<string>)
    requires cells == ["USD", "Buy", "9,50", "9,75"]
    ensures forall i :: 0 <= i < |cells| ==> Trim(cells[i]) == cells[i]
  {
    forall i | 0 <= i < |cells| ensures Trim(cells[i]) == cells[i] {
      var c := cells[i];
      assert |c| >= 3 && !IsSpace(c[0]) && !IsSpace(c[|c| - 1]);
      TrimUntouched(c);
    }
  }

  lemma JoinFour(a: string, b: string, c: string, d: string, sep: string)
    ensures Join([a, b, c, d], sep) == a + sep + b + sep + c + sep + d
  {
    var p := [a, b, c, d];
    assert p[..3] == [a, b, c];
    assert p[..3][..2] == [a, b];
    assert p[..3][..2][..1] == [a];
    assert Join(p[..3][..2], sep) == a + sep + b;
    assert Join(p[..3], sep) == a + sep + b + sep + c;
  }

  lemma UsdJoined(a: string, b: string, c: string, d: string)
    requires a == "USD" && b == "Buy" && c == "9,50" && d == "9,75"
    ensures a + " | " + b + " | " + c + " | " + d == "USD | Buy | 9,50 | 9,75"
  {
    var s := a + " | " + b + " | " + c + " | " + d;
    assert |s| == 23;
    forall k | 0 <= k < 23 ensures s[k] == "USD | Buy | 9,50 | 9,75"[k] {
    }
  }

  lemma UsdRowText(cells: seq<string>)
    requires cells == ["USD", "Buy", "9,50", "9,75"]
    ensures RowText(cells) == "USD | Buy | 9,50 | 9,75"
  {
    UsdCellsTrimmed(cells);
    RowTextTrimmed(cells);
    JoinFour(cells[0], cells[1], cells[2], cells[3], " | ");
    assert cells == [cells[0], cells[1], cells[2], cells[3]];
    UsdJoined(cells[0], cells[1], cells[2], cells[3]);
  }

  lemma UsdFirstToken(s: string)
    requires s == "USD | Buy | 9,50 | 9,75"
    ensures NextStart(s, 0) == 12
  {
    assert TokenStart(s, 12);
    assert NextStart(s, 12) == 12;
    assert NextStart(s, 11) == 12;
    assert NextStart(s, 10) == 12;
    assert NextStart(s, 9) == 12;
    assert NextStart(s, 8) == 12;
    assert NextStart(s, 7) == 12;
    assert NextStart(s, 6) == 12;
    assert NextStart(s, 5) == 12;
    assert NextStart(s, 4) == 12;
    assert NextStart(s, 3) == 12;
    assert NextStart(s, 2) == 12;
    assert NextStart(s, 1) == 12;
  }

  lemma UsdFirstTokenEnd(s: string)
    requires s == "USD | Buy | 9,50 | 9,75"
    ensures TokenStart(s, 12) && TokenEnd(s, 12) == 16
  {
    assert TokenStart(s, 12);
    assert RunEnd(s, 13) == 13;
    assert RunEnd(s, 12) == 13;
    assert LeadEnd(s, 12) == 13;
    assert !GroupAt(s, 13);
    assert GroupsEnd(s, 13) == 13;
    assert RunEnd(s, 16) == 16;
    assert RunEnd(s, 15) == 16;
    assert RunEnd(s, 14) == 16;
    assert FractionEnd(s, 13) == 16;
  }

  lemma UsdSecondToken(s: string)
    requires s == "USD | Buy | 9,50 | 9,75"
    ensures NextStart(s, 16) == 19
    ensures TokenStart(s, 19) && TokenEnd(s, 19) == 23
    ensures NextStart(s, 23) == 23
  {
    assert TokenStart(s, 19);
    assert NextStart(s, 19) == 19;
    assert NextStart(s, 18) == 19;
    assert NextStart(s, 17) == 19;
    assert RunEnd(s, 20) == 20;
    assert RunEnd(s, 19) == 20;
    assert LeadEnd(s, 19) == 20;
    assert GroupsEnd(s, 20) == 20;
    assert RunEnd(s, 23) == 23;
    assert RunEnd(s, 22) == 23;
    assert RunEnd(s, 21) == 23;
    assert FractionEnd(s, 20) == 23;
  }

  lemma UsdRowTokens(s: string)
    requires s == "USD | Buy | 9,50 | 9,75"
    ensures NumericTokens(s) == ["9,50", "9,75"]
  {
    UsdFirstToken(s);
    UsdFirstTokenEnd(s);
    UsdSecondToken(s);
    assert TokensFrom(s, 23) == [];
    assert TokensFrom(s, 16) == [s[19..23]];
    assert TokensFrom(s, 0) == [s[12..16]] + TokensFrom(s, 16);
    assert s[12..16] == "9,50" && s[19..23] == "9,75";
  }

  lemma NineSeventyFiveValue()
    ensures Filter("9", IsDigit) == "9"
    ensures DecimalValue("9", "75") == 9.75
  {
    assert "75"[..1] == "7";
    assert DigitsValue("9") == 9 && DigitsValue("75") == 75;
    assert Pow10(2) == 100;
  }

  lemma NineSeventyFive()
    ensures ParseNumber("9,75") == Finite(9.75)
  {
    NineSeventyFiveValue();
    DecimalSeparatorRule("9,75", false, "9", ',', "75");
  }

  /** The row text `"USD | Buy | 9,50 | 9,75"` yields USD with the last number, 9.75. */
  lemma UsdRowEntry(s: string)
    requires s == "USD | Buy | 9,50 | 9,75"
    ensures RowEntry(s) == Some(Entry("USD", 9.75))
  {
    assert CodeAt(s, 0);
    LeadingCode(s);
    assert s[..3] == "USD";
    UsdRowTokens(s);
    NineSeventyFive();
    assert ["9,50", "9,75"][1] == "9,75";
  }

  /** The cells `["USD", "Buy", "9,50", "9,75"]` yield USD ↦ 9.75. */
  lemma TableRowExample()
    ensures TableRowEntry(["USD", "Buy", "9,50", "9,75"]) == Some(Entry("USD", 9.75))
  {
    UsdRowText(["USD", "Buy", "9,50", "9,75"]);
    UsdRowEntry("USD | Buy | 9,50 | 9,75");
  }

  lemma ValutaHeader(t: Table)
    requires t.headers == ["Valuta"]
    ensures Qualifies(t)
  {
    assert ToLower("Valuta") == "valuta";
    assert HeaderText(t) == "valuta";
    assert OccursAt("valuta", "valuta", 0);
  }

  /** `"KURS"` in capitals qualifies a table too: the test ignores case. */
  lemma CapitalKursHeader(t: Table)
    requires t.headers == ["KURS"]
    ensures Qualifies(t)
  {
    assert ToLower("KURS") == "kurs";
    assert HeaderText(t) == "kurs";
    assert OccursAt("kurs", "kurs", 0);
  }

  lemma OneTable(t: Table)
    ensures TablesEntries([t]) == TableEntries(t)
  {
    var ts := [t];
    assert ts[..0] == [];
    assert TablesEntries(ts) == TablesEntries(ts[..0]) + TableEntries(ts[0]);
    assert TablesEntries(ts[..0]) == [];
  }

  lemma OneRow(row: seq<string>)
    ensures RowsEntries([row]) == Present(TableRowEntry(row))
  {
    assert [row][..0] == [];
  }

  lemma AssignSingle(rates: map<string, real>, e: Entry)
    ensures Assign(rates, [e]) == rates[e.code := e.value]
  {
    assert [e][..0] == [];
  }

  lemma TablePassExample(t: Table)
    requires t == Table(["Valuta"], [["USD", "Buy", "9,50", "9,75"]])
    ensures TablePass([t]) == map["USD" := 9.75]
  {
    ValutaHeader(t);
    TableRowExample();
    OneRow(["USD", "Buy", "9,50", "9,75"]);
    OneTable(t);
    AssignSingle(map[], Entry("USD", 9.75));
  }

  /** A page whose one table is headed `Valuta` and holds that row answers with USD ↦ 9.75
      and no date. */
  lemma RespondExample()
    ensures Respond("", [Table(["Valuta"], [["USD", "Buy", "9,50", "9,75"]])])
         == Success(200, "NOK", None, map["USD" := 9.75])
  {
    TablePassExample(Table(["Valuta"], [["USD", "Buy", "9,50", "9,75"]]));
  }

  lemma JpyLine(s: string)
    requires s == "JPY rate today: 0.065"
    ensures Lines(s) == [s]
  {
    assert forall k :: 0 <= k < |s| ==> !IsLineBreak(s[k]);
    SplitLinesSingle(s);
    TrimUntouched(s);
    var pieces := [s];
    assert pieces[..0] == [];
    assert TrimmedLines(pieces) == TrimmedLines(pieces[..0]) + [Trim(s)];
  }

  lemma JpyTokenStart(s: string)
    requires s == "JPY rate today: 0.065"
    ensures NextStart(s, 0) == 16
  {
    assert TokenStart(s, 16);
    assert NextStart(s, 16) == 16;
    assert NextStart(s, 15) == 16;
    assert NextStart(s, 14) == 16;
    assert NextStart(s, 13) == 16;
    assert NextStart(s, 12) == 16;
    assert NextStart(s, 11) == 16;
    assert NextStart(s, 10) == 16;
    assert NextStart(s, 9) == 16;
    assert NextStart(s, 8) == 16;
    assert NextStart(s, 7) == 16;
    assert NextStart(s, 6) == 16;
    assert NextStart(s, 5) == 16;
    assert NextStart(s, 4) == 16;
    assert NextStart(s, 3) == 16;
    assert NextStart(s, 2) == 16;
    assert NextStart(s, 1) == 16;
  }

  /** `".065"` is read as a group of three digits, so the token is `"0.065"`. */
  lemma JpyTokens(s: string)
    requires s == "JPY rate today: 0.065"
    ensures NumericTokens(s) == ["0.065"]
  {
    JpyTokenStart(s);
    assert RunEnd(s, 17) == 17;
    assert RunEnd(s, 16) == 17;
    assert LeadEnd(s, 16) == 17;
    assert GroupAt(s, 17);
    assert GroupsEnd(s, 21) == 21;
    assert GroupsEnd(s, 17) == 21;
    assert FractionEnd(s, 21) == 21;
    assert NextStart(s, 21) == 21;
    assert TokensFrom(s, 21) == [];
    assert TokensFrom(s, 0) == [s[16..21]] + TokensFrom(s, 21);
    assert s[16..21] == "0.065";
  }

  lemma JpyValue()
    ensures Filter("0", IsDigit) == "0"
    ensures DecimalValue("0", "065") == 0.065
  {
    assert "065"[..2] == "06" && "06"[..1] == "0";
    assert DigitsValue("0") == 0 && DigitsValue("065") == 65;
    assert Pow10(3) == 1000;
  }

  lemma JpyNumber()
    ensures ParseNumber("0.065") == Finite(0.065)
  {
    JpyValue();
    DecimalSeparatorRule("0.065", false, "0", '.', "065");
  }

  lemma JpyLetters(s: string)
    requires s == "JPY rate today: 0.065"
    ensures |s| == 21 && forall j :: 0 <= j <= 11 ==> !IsDigit(s[j])
  {
  }

  lemma JpyNoDate(s: string)
    requires s == "JPY rate today: 0.065"
    ensures FindDate(s) == None
  {
    JpyLetters(s);
    forall j | 0 <= j < |s| ensures !DateAt(s, Iso, j) && !DateAt(s, Dotted, j) {
      if j <= 11 {
        assert !IsDigit(s[j]);
      }
    }
  }

  /** The line `"JPY rate today: 0.065"` yields JPY ↦ 0.065. */
  lemma JpyEntry(s: string)
    requires s == "JPY rate today: 0.065"
    ensures RowEntry(s) == Some(Entry("JPY", 0.065))
  {
    assert CodeAt(s, 0);
    LeadingCode(s);
    assert s[..3] == "JPY";
    JpyTokens(s);
    JpyNumber();
    assert ["0.065"][0] == "0.065";
  }

  lemma OneLine(line: string)
    ensures LinesEntries([line]) == Present(RowEntry(line))
  {
    var lines := [line];
    assert lines[..0] == [];
    assert LinesEntries(lines) == LinesEntries(lines[..0]) + Present(RowEntry(lines[0]));
  }

  /** A page without tables whose text is the line `"JPY rate today: 0.065"`: the table
      pass finds nothing, and the fallback scan finds JPY ↦ 0.065. */
  lemma FallbackExample(s: string)
    requires s == "JPY rate today: 0.065"
    ensures TablePass([]) == map[]
    ensures Respond(s, []) == Success(200, "NOK", None, map["JPY" := 0.065])
  {
    JpyLine(s);
    JpyEntry(s);
    OneLine(s);
    AssignSingle(map[], Entry("JPY", 0.065));
    assert FallbackPass(s) == map["JPY" := 0.065];
    JpyNoDate(s);
  }
}
