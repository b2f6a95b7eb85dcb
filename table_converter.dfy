/** The table-based PDF converter of the scraper package
    (`src/scrapper/pdf_converter.py`): it reads the schedule report page by
    page, pairs every table of a page with the next staff name found in the
    page text, turns the rows under each table's header into appointment
    records, and writes them to a workbook. */
module TableConverter {
  import opened TextUtil
  import opened Calendar
  import opened PdfPages
  import opened SeqUtil
  import Workbook

  /** The record columns the header row can name. */
  datatype Field = Cliente | Animal | TipoAtendimento | Data | Hora | Status

  /** One appointment, every field a stripped cell text ('' when absent). */
  datatype Appointment = Appointment(
    veterinario: string, cliente: string, animal: string,
    tipoAtendimento: string, data: string, hora: string, status: string)

  /** The workbook's columns, in order. */
  const ColumnOrder: seq<string> :=
    ["veterinario", "cliente", "animal", "tipo_atendimento", "data", "hora", "status"]

  // ---------------------------------------------------------------------
  // Staff names from the page text
  // ---------------------------------------------------------------------

  /** Words whose presence (in lower case) marks a heading, not a name. */
  const HeadingWords: seq<string> := ["cliente", "animal", "data", "hora", "status", "agenda"]

  /** A stripped line taken as a staff name: upper case, longer than five
      characters, and naming none of the headings. */
  predicate IsStaffLine(line: string)
  {
    IsUpperText(line) && |line| > 5 && !ContainsAny(LowerStr(line), HeadingWords)
  }

  /** What one line contributes to the staff names: itself, stripped, when
      it passes the test. */
  function StaffLineName(line: string): Option<string>
  {
    var l := Strip(line);
    if IsStaffLine(l) then Some(l) else None
  }

  /** The staff names among some lines, in the order they occur. */
  function StaffNamesOf(lines: seq<string>): seq<string>
  {
    FilterMap(lines, StaffLineName)
  }

  /** The staff names of a page: those among the lines of its text. */
  function StaffNames(text: string): seq<string>
  {
    StaffNamesOf(Split(text, '\n'))
  }

  /** A name is listed exactly when some line strips to it and it passes
      the staff-name test. */
  lemma StaffNamesMembership(lines: seq<string>, name: string)
    ensures name in StaffNamesOf(lines) <==>
      IsStaffLine(name) && exists k :: 0 <= k < |lines| && Strip(lines[k]) == name
  {
    FilterMapMembership(lines, StaffLineName, name);
  }

  // ---------------------------------------------------------------------
  // Header row and column map
  // ---------------------------------------------------------------------

  /** A cell whose text mentions "cliente" in any case. */
  predicate MentionsCliente(c: Cell)
  {
    Truthy(c) && Contains(LowerStr(c.value), "cliente")
  }

  /** The header row: some cell mentions "cliente". */
  predicate IsHeaderRow(row: Row)
  {
    exists j :: 0 <= j < |row| && MentionsCliente(row[j])
  }

  /** Index of the first header row, if any. */
  function HeaderIndex(table: Table): (h: Option<nat>)
    ensures h.Some? ==> h.value < |table| && IsHeaderRow(table[h.value])
    ensures h.Some? ==> forall j :: 0 <= j < h.value ==> !IsHeaderRow(table[j])
    ensures h.None? ==> forall j :: 0 <= j < |table| ==> !IsHeaderRow(table[j])
  {
    if table == [] then None
    else if IsHeaderRow(table[0]) then Some(0)
    else match HeaderIndex(table[1..])
      case None => None
      case Some(k) => Some(k + 1)
  }

  /** The header search: the first row holding a cell that mentions
      "cliente". */
  method FindHeaderRow(table: Table) returns (h: Option<nat>)
    ensures h == HeaderIndex(table)
  {
    var idx := 0;
    while idx < |table|
      invariant 0 <= idx <= |table|
      invariant forall j :: 0 <= j < idx ==> !IsHeaderRow(table[j])
    {
      if IsHeaderRow(table[idx]) {
        return Some(idx);
      }
      idx := idx + 1;
    }
    return None;
  }

  /** The order in which the keyword tests are tried. */
  function Rank(f: Field): nat
  {
    match f
    case Cliente => 0
    case Animal => 1
    case TipoAtendimento => 2
    case Data => 3
    case Hora => 4
    case Status => 5
  }

  /** The lower-case header text `h` carries one of the keywords of `f`. */
  predicate Mentions(h: string, f: Field)
  {
    match f
    case Cliente => Contains(h, "cliente")
    case Animal => Contains(h, "animal")
    case TipoAtendimento => Contains(h, "tipo") || Contains(h, "atendimento")
    case Data => Contains(h, "data")
    case Hora => Contains(h, "hora")
    case Status => Contains(h, "status")
  }

  /** The field a header cell names: the first of the keyword tests, taken
      in order, that the stripped lower-case text passes. */
  function FieldOf(header: string): Option<Field>
  {
    var h := LowerStr(Strip(header));
    if Contains(h, "cliente") then Some(Cliente)
    else if Contains(h, "animal") then Some(Animal)
    else if Contains(h, "tipo") || Contains(h, "atendimento") then Some(TipoAtendimento)
    else if Contains(h, "data") then Some(Data)
    else if Contains(h, "hora") then Some(Hora)
    else if Contains(h, "status") then Some(Status)
    else None
  }

  /** A header cell names the first field, in the order of the tests, whose
      keywords its stripped lower-case text carries, and none when it
      carries no keyword at all. */
  lemma FieldOfPrecedence(header: string)
    ensures var f := FieldOf(header);
      && (f.Some? ==> Mentions(LowerStr(Strip(header)), f.value))
      && (f.Some? ==> forall g :: Rank(g) < Rank(f.value) ==> !Mentions(LowerStr(Strip(header)), g))
      && (f.None? ==> forall g :: !Mentions(LowerStr(Strip(header)), g))
  {
  }

  /** The field a header cell names, if it is truthy. */
  function CellField(c: Cell): Option<Field>
  {
    if Truthy(c) then FieldOf(c.value) else None
  }

  function CellFields(headers: Row): (fs: seq<Option<Field>>)
    ensures |fs| == |headers| && forall j :: 0 <= j < |headers| ==> fs[j] == CellField(headers[j])
  {
    seq(|headers|, j requires 0 <= j < |headers| => CellField(headers[j]))
  }

  /** The map built from the fields the cells name, left to right: a later
      cell naming the same field overwrites an earlier one. */
  function MapOfFields(fs: seq<Option<Field>>): map<Field, nat>
    decreases |fs|
  {
    if fs == [] then map[]
    else
      var j := |fs| - 1;
      var m := MapOfFields(fs[..j]);
      match fs[j]
      case None => m
      case Some(f) => m[f := j]
  }

  /** The column map of a header row. */
  function ColumnMapOf(headers: Row): map<Field, nat>
  {
    MapOfFields(CellFields(headers))
  }

  /** A field is mapped exactly when some cell names it, and then to the
      last such cell. */
  lemma {:induction false} MapOfFieldsLastWriter(fs: seq<Option<Field>>, f: Field)
    ensures f in MapOfFields(fs) <==> exists j :: 0 <= j < |fs| && fs[j] == Some(f)
    ensures f in MapOfFields(fs) ==>
      var j := MapOfFields(fs)[f];
      && j < |fs| && fs[j] == Some(f)
      && forall k :: j < k < |fs| ==> fs[k] != Some(f)
    decreases |fs|
  {
    if fs != [] {
      var n := |fs| - 1;
      MapOfFieldsLastWriter(fs[..n], f);
      assert forall j :: 0 <= j < n ==> fs[..n][j] == fs[j];
    }
  }

  /** In a header row, a field is mapped exactly when some cell names it,
      and then to the last such cell. */
  lemma ColumnMapLastWriter(headers: Row, f: Field)
    ensures f in ColumnMapOf(headers) <==> exists j :: 0 <= j < |headers| && CellField(headers[j]) == Some(f)
    ensures f in ColumnMapOf(headers) ==>
      var j := ColumnMapOf(headers)[f];
      && j < |headers| && CellField(headers[j]) == Some(f)
      && forall k :: j < k < |headers| ==> CellField(headers[k]) != Some(f)
  {
    MapOfFieldsLastWriter(CellFields(headers), f);
  }

  /** Two different fields never share a column. */
  lemma ColumnMapInjective(headers: Row, f: Field, g: Field)
    requires f in ColumnMapOf(headers) && g in ColumnMapOf(headers) && f != g
    ensures ColumnMapOf(headers)[f] != ColumnMapOf(headers)[g]
  {
    ColumnMapLastWriter(headers, f);
    ColumnMapLastWriter(headers, g);
  }

  /** The column-map loop: every truthy header cell that names a field
      records its index under that field. */
  method BuildColumnMap(headers: Row) returns (cols: map<Field, nat>)
    ensures cols == ColumnMapOf(headers)
  {
    ghost var fs := CellFields(headers);
    cols := map[];
    var idx := 0;
    while idx < |headers|
      invariant 0 <= idx <= |headers|
      invariant cols == MapOfFields(fs[..idx])
    {
      assert fs[..idx + 1][..idx] == fs[..idx];
      var header := headers[idx];
      if Truthy(header) {
        var field := FieldOf(header.value);
        if field.Some? {
          cols := cols[field.value := idx];
        }
      }
      idx := idx + 1;
    }
    assert fs[..|headers|] == fs;
  }

  // ---------------------------------------------------------------------
  // Data rows
  // ---------------------------------------------------------------------

  /** The stripped text of the cell a column points at; '' when the field
      has no column, the row is too short or the cell is empty. */
  function CellValue(row: Row, col: Option<nat>): (v: string)
    ensures col.None? || col.value >= |row| || row[col.value].None? ==> v == ""
    ensures col.Some? && col.value < |row| && row[col.value].Some? ==> v == Strip(row[col.value].value)
  {
    if col.None? || col.value >= |row| then ""
    else match row[col.value]
      case None => ""
      case Some(text) => Strip(text)
  }

  function Lookup(cols: map<Field, nat>, f: Field): Option<nat>
  {
    if f in cols then Some(cols[f]) else None
  }

  /** A row with no cell holding anything but whitespace. */
  predicate IsBlankRow(row: Row)
  {
    forall j :: 0 <= j < |row| ==> !Truthy(row[j]) || Strip(row[j].value) == ""
  }

  /** The stripped text of the first cell, '' when there is none. */
  function FirstCell(row: Row): string
  {
    if |row| > 0 && Truthy(row[0]) then Strip(row[0].value) else ""
  }

  /** Phrases that mark a note row (payment, vaccine and contact remarks). */
  const NotePhrases: seq<string> := [
    "paga na hora", "valor normal", "valor", "observ", "v4", "v5", "queixa:",
    "contato de quem", "endere\U{E7}o completo", "sem custo", "2\U{B0} dose", "dose v"]

  /** A note row: its first cell, lower-cased, contains one of the phrases. */
  predicate IsNoteRow(row: Row)
  {
    ContainsAny(LowerStr(FirstCell(row)), NotePhrases)
  }

  /** The date check: a non-blank string of exactly two digits, '/', two
      digits, '/', four digits (the pattern's `$` also admits one trailing
      newline) that `strptime` accepts as day/month/year. */
  predicate IsValidDate(s: string)
  {
    && s != "" && Strip(s) != ""
    && (DmyShape(s) || (|s| == 11 && DmyShape(s[..10]) && s[10] == '\n'))
    && ParseDmy(s).Some?
  }

  /** The date check accepts exactly the DD/MM/YYYY strings that spell a
      real calendar day: the trailing newline the pattern lets through is
      refused by `strptime`, and so are 31/04 or 29/02 of a common year. */
  lemma IsValidDateIsCalendarDay(s: string)
    ensures IsValidDate(s) <==> DmyShape(s) && IsValid(DmyFields(s))
  {
    if DmyShape(s) {
      ParseDmyOnShape(s);
      StripEmptyIffAllSpace(s);
      assert !IsSpace(s[0]);
    } else if |s| == 11 {
      assert ParseDmy(s).None?;
    }
  }

  /** The three date examples of the report format. */
  lemma IsValidDateAcceptsRealDay()
    ensures IsValidDate("05/10/2025")
  {
    IsValidDateIsCalendarDay("05/10/2025");
  }

  lemma IsValidDateRefusesImpossibleDay()
    ensures !IsValidDate("31/02/2025")
  {
    IsValidDateIsCalendarDay("31/02/2025");
  }

  lemma IsValidDateRefusesIsoOrder()
    ensures !IsValidDate("2025-10-05")
  {
    IsValidDateIsCalendarDay("2025-10-05");
  }

  /** The record a data row yields under a column map. */
  function RecordOf(row: Row, cols: map<Field, nat>, vet: string): Appointment
  {
    Appointment(vet,
      CellValue(row, Lookup(cols, Cliente)), CellValue(row, Lookup(cols, Animal)),
      CellValue(row, Lookup(cols, TipoAtendimento)), CellValue(row, Lookup(cols, Data)),
      CellValue(row, Lookup(cols, Hora)), CellValue(row, Lookup(cols, Status)))
  }

  /** What one row after the header contributes: nothing for a blank or a
      note row, a row without a valid date, or one with neither client nor
      animal; its record otherwise. */
  function RowRecord(row: Row, cols: map<Field, nat>, vet: string): Option<Appointment>
  {
    if IsBlankRow(row) || IsNoteRow(row) then None
    else
      var a := RecordOf(row, cols, vet);
      if !IsValidDate(a.data) then None
      else if a.cliente != "" || a.animal != "" then Some(a)
      else None
  }

  /** The row rule under a column map and a staff name, as a function
      value. */
  function RowRule(cols: map<Field, nat>, vet: string): Row -> Option<Appointment>
  {
    row => RowRecord(row, cols, vet)
  }

  /** The records of a run of rows, in order. */
  function RowsRecords(rows: seq<Row>, cols: map<Field, nat>, vet: string): seq<Appointment>
  {
    FilterMap(rows, RowRule(cols, vet))
  }

  /** The records of one table: nothing for a table of fewer than two rows
      or without a header row; otherwise the records of the rows after the
      first header row, mapped by that header. */
  function TableRecords(table: Table, vet: string): seq<Appointment>
  {
    if |table| < 2 then []
    else match HeaderIndex(table)
      case None => []
      case Some(h) => RecordsBelow(table, h, vet)
  }

  /** The records of the rows below row `h`, read through the column map of
      row `h`. */
  function RecordsBelow(table: Table, h: nat, vet: string): seq<Appointment>
    requires h < |table|
  {
    RowsRecords(table[h + 1..], ColumnMapOf(table[h]), vet)
  }

  /** The table parser. */
  method ParseSimplesvetTable(table: Table, vet: string) returns (appointments: seq<Appointment>)
    ensures appointments == TableRecords(table, vet)
  {
    appointments := [];
    if |table| < 2 {
      return;
    }
    var header := FindHeaderRow(table);
    if header.None? {
      return;
    }
    var h := header.value;
    var cols := BuildColumnMap(table[h]);
    var rows := table[h + 1..];
    var i := 0;
    while i < |rows|
      invariant 0 <= i <= |rows|
      invariant appointments == FilterMap(rows[..i], RowRule(cols, vet))
    {
      var row := rows[i];
      ghost var outcome := RowRecord(row, cols, vet);
      FilterMapExtend(rows, i, RowRule(cols, vet), appointments, outcome);
      if !IsBlankRow(row) && !IsNoteRow(row) {
        var appointment := RecordOf(row, cols, vet);
        if IsValidDate(appointment.data) && (appointment.cliente != "" || appointment.animal != "") {
          appointments := appointments + [appointment];
        }
      }
      i := i + 1;
    }
    assert rows[..|rows|] == rows;
  }

  /** What every record of a table carries: the staff name it was given, a
      real calendar date in DD/MM/YYYY, a client or an animal, and fields
      with no surrounding whitespace. */
  predicate SoundRecord(a: Appointment, vet: string)
  {
    && a.veterinario == vet
    && DmyShape(a.data) && IsValid(DmyFields(a.data))
    && (a.cliente != "" || a.animal != "")
    && Strip(a.cliente) == a.cliente && Strip(a.animal) == a.animal
    && Strip(a.tipoAtendimento) == a.tipoAtendimento
    && Strip(a.hora) == a.hora && Strip(a.status) == a.status
  }

  /** Stripping a stripped string changes nothing. */
  lemma StripIdempotent(s: string)
    ensures Strip(Strip(s)) == Strip(s)
  {
    var r := Strip(s);
    var a := StripIsTrimmedSlice(s);
    if r != [] {
      assert TrimStart(r) == r;
      assert TrimEnd(r) == r;
    }
  }

  lemma CellValueStripped(row: Row, col: Option<nat>)
    ensures Strip(CellValue(row, col)) == CellValue(row, col)
  {
    if col.Some? && col.value < |row| && row[col.value].Some? {
      StripIdempotent(row[col.value].value);
    }
  }

  lemma RowRecordSound(row: Row, cols: map<Field, nat>, vet: string)
    requires RowRecord(row, cols, vet).Some?
    ensures SoundRecord(RowRecord(row, cols, vet).value, vet)
  {
    var a := RowRecord(row, cols, vet).value;
    IsValidDateIsCalendarDay(a.data);
    CellValueStripped(row, Lookup(cols, Cliente));
    CellValueStripped(row, Lookup(cols, Animal));
    CellValueStripped(row, Lookup(cols, TipoAtendimento));
    CellValueStripped(row, Lookup(cols, Hora));
    CellValueStripped(row, Lookup(cols, Status));
  }

  lemma RowsRecordsSound(rows: seq<Row>, cols: map<Field, nat>, vet: string)
    ensures forall a :: a in RowsRecords(rows, cols, vet) ==> SoundRecord(a, vet)
  {
    forall a | a in RowsRecords(rows, cols, vet)
      ensures SoundRecord(a, vet)
    {
      FilterMapMembership(rows, RowRule(cols, vet), a);
      var k :| 0 <= k < |rows| && RowRule(cols, vet)(rows[k]) == Some(a);
      RowRecordSound(rows[k], cols, vet);
    }
  }

  lemma TableRecordsSound(table: Table, vet: string)
    ensures forall a :: a in TableRecords(table, vet) ==> SoundRecord(a, vet)
  {
    if |table| >= 2 && HeaderIndex(table).Some? {
      var h := HeaderIndex(table).value;
      RowsRecordsSound(table[h + 1..], ColumnMapOf(table[h]), vet);
    }
  }

  /** Rows the filter drops can be inserted anywhere among the data rows
      without changing the records. */
  lemma DroppedRowIsInvisible(before: seq<Row>, row: Row, after: seq<Row>,
                              cols: map<Field, nat>, vet: string)
    requires RowRecord(row, cols, vet).None?
    ensures RowsRecords(before + [row] + after, cols, vet) ==
            RowsRecords(before + after, cols, vet)
  {
    FilterMapSkips(before, row, after, RowRule(cols, vet));
  }

  /** Blank rows and note rows are such rows. */
  lemma BlankAndNoteRowsDropped(row: Row, cols: map<Field, nat>, vet: string)
    requires IsBlankRow(row) || IsNoteRow(row)
    ensures RowRecord(row, cols, vet).None?
  {
  }

  /** Rows without a "cliente" cell put in front of a table shift its
      header index by their number. */
  lemma {:induction false} HeaderIndexShift(above: seq<Row>, table: Table)
    requires forall j :: 0 <= j < |above| ==> !IsHeaderRow(above[j])
    ensures HeaderIndex(above + table) ==
      match HeaderIndex(table) case None => None case Some(h) => Some(|above| + h)
    decreases |above|
  {
    if above == [] {
      assert above + table == table;
    } else {
      assert (above + table)[0] == above[0];
      assert (above + table)[1..] == above[1..] + table;
      HeaderIndexShift(above[1..], table);
    }
  }

  /** Rows above the header never contribute: putting rows without a
      "cliente" cell in front of a table leaves its records unchanged. */
  lemma {:induction false} RowsAboveHeaderIgnored(above: seq<Row>, table: Table, vet: string)
    requires |table| >= 2
    requires forall j :: 0 <= j < |above| ==> !IsHeaderRow(above[j])
    ensures TableRecords(above + table, vet) == TableRecords(table, vet)
  {
    HeaderIndexShift(above, table);
    var t := above + table;
    match HeaderIndex(table)
    case None =>
      TableRecordsWithoutHeader(table, vet);
      TableRecordsWithoutHeader(t, vet);
    case Some(h) =>
      RecordsBelowShift(above, table, h, vet);
      TableRecordsBelowHeader(table, vet, h);
      TableRecordsBelowHeader(t, vet, |above| + h);
  }

  /** Row `h` of a table is row `|above| + h` once `above` is put in front,
      and the rows below it are the same. */
  lemma RecordsBelowShift(above: seq<Row>, table: Table, h: nat, vet: string)
    requires h < |table|
    ensures RecordsBelow(above + table, |above| + h, vet) == RecordsBelow(table, h, vet)
  {
    var t := above + table;
    assert t[|above| + h] == table[h];
    assert t[|above| + h + 1..] == table[h + 1..];
  }

  /** A table without a header row yields nothing. */
  lemma TableRecordsWithoutHeader(table: Table, vet: string)
    requires HeaderIndex(table).None?
    ensures TableRecords(table, vet) == []
  {
  }

  /** The records of a table with a header row at `h` are those of the rows
      below it, read through the header's column map. */
  lemma TableRecordsBelowHeader(table: Table, vet: string, h: nat)
    requires |table| >= 2 && HeaderIndex(table) == Some(h)
    ensures TableRecords(table, vet) == RecordsBelow(table, h, vet)
  {
  }

  // ---------------------------------------------------------------------
  // Pages and the whole document
  // ---------------------------------------------------------------------

  /** The staff name for the k-th table processed on a page; '' once the
      names run out. */
  function NameFor(names: seq<string>, k: nat): (n: string)
    ensures n == "" || n in names
  {
    if k < |names| then names[k] else ""
  }

  /** The tables the page loop processes: those of at least two rows. */
  predicate IsProcessed(t: Table)
  {
    |t| >= 2
  }

  /** The table rule given the page's staff names, as a function value: the
      table numbered k among the processed ones gets the k-th name. */
  function TableRule(names: seq<string>): (Table, nat) -> seq<Appointment>
  {
    (t: Table, k: nat) => TableRecords(t, NameFor(names, k))
  }

  /** The table loop of a page: a counter, advanced only for processed
      tables, picks each table's staff name. */
  function TablesRecords(tables: seq<Table>, names: seq<string>): seq<Appointment>
  {
    CountedConcat(tables, IsProcessed, TableRule(names))
  }

  /** The k-th processed table of a page is paired with the k-th staff name:
      every record comes from some processed table, under the name of its
      rank among the processed tables ('' once the names run out). */
  lemma TablesPairWithNames(tables: seq<Table>, names: seq<string>, a: Appointment) returns (k: nat)
    requires a in TablesRecords(tables, names)
    ensures k < |Kept(tables, IsProcessed)|
    ensures a in TableRecords(Kept(tables, IsProcessed)[k], NameFor(names, k))
  {
    CountedConcatIsIndexed(tables, IsProcessed, TableRule(names));
    k := IndexedConcatOrigin(Kept(tables, IsProcessed), TableRule(names), a);
  }

  /** The records of one page: nothing when it has no tables. */
  function PageRecords(page: Page): seq<Appointment>
  {
    if page.Unreadable? || page.tables == [] then []
    else TablesRecords(page.tables, StaffNames(page.text))
  }

  /** Every record of a page is sound, and its staff name comes from the
      page's text or is ''. */
  lemma PageRecordsSound(page: Page, a: Appointment)
    requires a in PageRecords(page)
    ensures SoundRecord(a, a.veterinario)
    ensures a.veterinario == "" || a.veterinario in StaffNames(page.text)
  {
    var names := StaffNames(page.text);
    var k := TablesPairWithNames(page.tables, names, a);
    TableRecordsSound(Kept(page.tables, IsProcessed)[k], NameFor(names, k));
  }

  /** Records of a run of pages, in page order. */
  function PagesRecords(pages: seq<Page>): seq<Appointment>
  {
    ConcatMap(pages, PageRecords)
  }

  /** The records of the whole document: the pages before the first one the
      library fails on. */
  function DocumentRecords(pages: seq<Page>): seq<Appointment>
  {
    PagesRecords(ReadablePrefix(pages))
  }

  /** The work done for one readable page: when it has tables, its staff
      names are read and each table of two or more rows is parsed under the
      next name. */
  method ExtractPageAppointments(page: Page) returns (records: seq<Appointment>)
    requires page.Page?
    ensures records == PageRecords(page)
  {
    records := [];
    var tables := page.tables;
    if tables != [] {
      var veterinarios := StaffNames(page.text);
      var vetIndex := 0;
      var t := 0;
      while t < |tables|
        invariant 0 <= t <= |tables|
        invariant vetIndex == CountKept(tables[..t], IsProcessed)
        invariant records == CountedConcat(tables[..t], IsProcessed, TableRule(veterinarios))
      {
        var table := tables[t];
        CountedConcatExtend(tables, t, IsProcessed, TableRule(veterinarios), records, vetIndex, |table| >= 2);
        if |table| >= 2 {
          var veterinario := NameFor(veterinarios, vetIndex);
          var tableAppointments := ParseSimplesvetTable(table, veterinario);
          assert tableAppointments == TableRule(veterinarios)(table, vetIndex);
          records := records + tableAppointments;
          vetIndex := vetIndex + 1;
        }
        t := t + 1;
      }
      assert tables[..|tables|] == tables;
    }
  }

  /** The page loop: pages in order until the library fails on one. */
  method ExtractAppointmentsFromPdf(pages: seq<Page>) returns (appointments: seq<Appointment>)
    ensures appointments == DocumentRecords(pages)
  {
    appointments := [];
    var p := 0;
    while p < |pages|
      invariant 0 <= p <= |pages|
      invariant forall k :: 0 <= k < p ==> pages[k].Page?
      invariant appointments == ConcatMap(pages[..p], PageRecords)
    {
      if pages[p].Unreadable? {
        ReadablePrefixEndsAt(pages, p);
        return;
      }
      assert forall k :: 0 <= k < p + 1 ==> pages[k].Page?;
      var pageAppointments := ExtractPageAppointments(pages[p]);
      ConcatMapExtend(pages, p, PageRecords, appointments, pageAppointments);
      appointments := appointments + pageAppointments;
      p := p + 1;
    }
    ReadablePrefixEndsAt(pages, p);
  }

  /** A page the library fails on ends the extraction: nothing after it
      contributes. */
  lemma {:induction false} UnreadablePageEndsDocument(before: seq<Page>, after: seq<Page>)
    requires forall k :: 0 <= k < |before| ==> before[k].Page?
    ensures DocumentRecords(before + [Unreadable] + after) == PagesRecords(before)
  {
    var pages := before + [Unreadable] + after;
    assert pages[|before|].Unreadable?;
    assert ReadablePrefix(pages) == before;
  }

  /** Every record of the document is sound for its own staff name. */
  lemma DocumentRecordsSound(pages: seq<Page>)
    ensures forall a :: a in DocumentRecords(pages) ==> SoundRecord(a, a.veterinario)
  {
    var readable := ReadablePrefix(pages);
    forall a | a in DocumentRecords(pages)
      ensures SoundRecord(a, a.veterinario)
    {
      var k := ConcatMapOrigin(readable, PageRecords, a);
      PageRecordsSound(readable[k], a);
    }
  }

  // ---------------------------------------------------------------------
  // Writing the workbook
  // ---------------------------------------------------------------------

  /** A record as a sheet row, in column order. */
  function SheetRow(a: Appointment): (r: seq<string>)
    ensures |r| == |ColumnOrder|
  {
    [a.veterinario, a.cliente, a.animal, a.tipoAtendimento, a.data, a.hora, a.status]
  }

  /** The sheet `to_excel` lays out: the header row, then one row per
      record in order. */
  function SheetOf(records: seq<Appointment>): (sheet: seq<seq<string>>)
    ensures |sheet| == |records| + 1 && sheet[0] == ColumnOrder
    ensures Workbook.Rectangular(sheet)
    ensures forall k :: 0 <= k < |records| ==> sheet[k + 1] == SheetRow(records[k])
  {
    [ColumnOrder] + seq(|records|, k requires 0 <= k < |records| => SheetRow(records[k]))
  }

  /** The last step of both table converters: no workbook for no records or
      a failed write, otherwise the sheet of the records at the workbook
      path derived from the PDF's. */
  function WriteRecords(pdfPath: string, month: string, records: seq<Appointment>,
                        writeSucceeds: bool): (r: Option<Workbook.Conversion>)
    ensures r.Some? <==> records != [] && writeSucceeds
    ensures r.Some? ==> r.value.path == Workbook.ExcelPathForPdf(pdfPath, month)
    ensures r.Some? ==> r.value.sheet == SheetOf(records)
  {
    if records == [] || !writeSucceeds then None
    else Some(Workbook.Conversion(Workbook.ExcelPathForPdf(pdfPath, month), SheetOf(records)))
  }

  /** The converter. `document` is None when the PDF does not exist;
      `writeSucceeds` says whether the workbook could be written. It returns
      None for a missing file, a document without records or a failed write,
      and the written workbook otherwise. */
  function ConvertPdfToExcel(pdfPath: string, month: string, document: Option<seq<Page>>,
                             writeSucceeds: bool): (r: Option<Workbook.Conversion>)
    ensures r.Some? <==> document.Some? && DocumentRecords(document.value) != [] && writeSucceeds
    ensures r.Some? ==>
      var records := DocumentRecords(document.value);
      && r.value.path == Workbook.ExcelPathForPdf(pdfPath, month)
      && |r.value.sheet| == |records| + 1 && r.value.sheet[0] == ColumnOrder
      && Workbook.Rectangular(r.value.sheet)
      && forall k :: 0 <= k < |records| ==> r.value.sheet[k + 1] == SheetRow(records[k])
  {
    match document
    case None => None
    case Some(pages) => WriteRecords(pdfPath, month, DocumentRecords(pages), writeSucceeds)
  }
}
