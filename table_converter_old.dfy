/** The older table converter (`src/pdf_converter_old.py`). It shares the
    staff-name test, the column map, the cell reading and the name pairing
    with the current one, but takes the first row of every table as its
    header, uses a different, shorter list of note phrases (with
    "vacinação", which the current list lacks), and checks no date. */
module OldTableConverter {
  import opened TextUtil
  import opened Calendar
  import opened PdfPages
  import opened SeqUtil
  import opened TableConverter
  import Workbook

  /** The shorter list of note phrases. */
  const OldNotePhrases: seq<string> :=
    ["paga na hora", "vacina\U{E7}\U{E3}o", "valor", "observ", "v4", "v5"]

  /** A note row under the shorter list. */
  predicate IsOldNoteRow(row: Row)
  {
    ContainsAny(LowerStr(FirstCell(row)), OldNotePhrases)
  }

  /** What one data row contributes: nothing for a blank or a note row, or
      one with neither client nor animal; its record otherwise, whatever its
      date. */
  function OldRowRecord(row: Row, cols: map<Field, nat>, vet: string): Option<Appointment>
  {
    if IsBlankRow(row) || IsOldNoteRow(row) then None
    else
      var a := RecordOf(row, cols, vet);
      if a.cliente != "" || a.animal != "" then Some(a) else None
  }

  function OldRowRule(cols: map<Field, nat>, vet: string): Row -> Option<Appointment>
  {
    row => OldRowRecord(row, cols, vet)
  }

  /** The records of one table: nothing for fewer than two rows; otherwise
      the rows after the first, mapped by the first. */
  function OldTableRecords(table: Table, vet: string): seq<Appointment>
  {
    if |table| < 2 then []
    else FilterMap(table[1..], OldRowRule(ColumnMapOf(table[0]), vet))
  }

  /** The table parser of the older converter. */
  method ParseOldTable(table: Table, vet: string) returns (appointments: seq<Appointment>)
    ensures appointments == OldTableRecords(table, vet)
  {
    appointments := [];
    if |table| < 2 {
      return;
    }
    var cols := BuildColumnMap(table[0]);
    var rows := table[1..];
    var i := 0;
    while i < |rows|
      invariant 0 <= i <= |rows|
      invariant appointments == FilterMap(rows[..i], OldRowRule(cols, vet))
    {
      var row := rows[i];
      ghost var outcome := OldRowRecord(row, cols, vet);
      FilterMapExtend(rows, i, OldRowRule(cols, vet), appointments, outcome);
      if !IsBlankRow(row) && !IsOldNoteRow(row) {
        var appointment := RecordOf(row, cols, vet);
        if appointment.cliente != "" || appointment.animal != "" {
          appointments := appointments + [appointment];
        }
      }
      i := i + 1;
    }
    assert rows[..|rows|] == rows;
  }

  /** What every record of the older converter carries: its staff name, a
      client or an animal, and fields with no surrounding whitespace; the
      date may be anything, even ''. */
  predicate OldSoundRecord(a: Appointment, vet: string)
  {
    && a.veterinario == vet
    && (a.cliente != "" || a.animal != "")
    && Strip(a.cliente) == a.cliente && Strip(a.animal) == a.animal
    && Strip(a.tipoAtendimento) == a.tipoAtendimento && Strip(a.data) == a.data
    && Strip(a.hora) == a.hora && Strip(a.status) == a.status
  }

  /** A row that is neither blank nor a note is emitted exactly when its
      client or its animal is non-empty, and then as its record. */
  lemma OldRowEmittedIff(row: Row, cols: map<Field, nat>, vet: string)
    requires !IsBlankRow(row) && !IsOldNoteRow(row)
    ensures var a := RecordOf(row, cols, vet);
      OldRowRecord(row, cols, vet) == (if a.cliente != "" || a.animal != "" then Some(a) else None)
  {
  }

  lemma OldTableRecordsSound(table: Table, vet: string)
    ensures forall a :: a in OldTableRecords(table, vet) ==> OldSoundRecord(a, vet)
  {
    forall a | a in OldTableRecords(table, vet)
      ensures OldSoundRecord(a, vet)
    {
      var rows := table[1..];
      var cols := ColumnMapOf(table[0]);
      FilterMapMembership(rows, OldRowRule(cols, vet), a);
      var k :| 0 <= k < |rows| && OldRowRule(cols, vet)(rows[k]) == Some(a);
      var row := rows[k];
      CellValueStripped(row, Lookup(cols, Cliente));
      CellValueStripped(row, Lookup(cols, Animal));
      CellValueStripped(row, Lookup(cols, TipoAtendimento));
      CellValueStripped(row, Lookup(cols, Data));
      CellValueStripped(row, Lookup(cols, Hora));
      CellValueStripped(row, Lookup(cols, Status));
    }
  }

  /** Keeps a record only when its date passes the current converter's
      date check. */
  function DateFilter(a: Appointment): (r: Option<Appointment>)
    ensures r.Some? <==> IsValidDate(a.data)
    ensures r.Some? ==> r.value == a
  {
    if IsValidDate(a.data) then Some(a) else None
  }

  /** The two policies compared on a table whose first row is its header
      and which holds no note row under either list: the current converter
      yields exactly the older one's records whose date is a real
      DD/MM/YYYY day, in the same order. */
  lemma OldAndCurrentAgreeUpToDates(table: Table, vet: string)
    requires |table| >= 2 && IsHeaderRow(table[0])
    requires forall j :: 1 <= j < |table| ==> !IsNoteRow(table[j]) && !IsOldNoteRow(table[j])
    ensures TableRecords(table, vet) == FilterMap(OldTableRecords(table, vet), DateFilter)
  {
    assert HeaderIndex(table) == Some(0);
    var rows := table[1..];
    var cols := ColumnMapOf(table[0]);
    forall k | 0 <= k < |rows|
      ensures RowRule(cols, vet)(rows[k]) ==
        match OldRowRule(cols, vet)(rows[k]) case None => None case Some(y) => DateFilter(y)
    {
      assert rows[k] == table[k + 1];
    }
    FilterMapFuse(rows, OldRowRule(cols, vet), DateFilter, RowRule(cols, vet));
  }

  /** The row of the date example: an empty first cell, the client "Ana"
      in column 1 and the date 31/02/2025 in column 2. */
  lemma ImpossibleDateRow(row: Row, cols: map<Field, nat>)
    requires row == [None, Some("Ana"), Some("31/02/2025")] && cols == map[Cliente := 1, Data := 2]
    ensures !IsBlankRow(row) && !IsNoteRow(row) && !IsOldNoteRow(row)
    ensures RecordOf(row, cols, "") == Appointment("", "Ana", "", "", "31/02/2025", "", "")
  {
    StripUnchanged("Ana");
    StripUnchanged("31/02/2025");
    assert FirstCell(row) == "";
    assert LowerStr("") == "";
    EmptyContainsNone(NotePhrases);
    EmptyContainsNone(OldNotePhrases);
    assert Truthy(row[1]) && Strip(row[1].value) != "";
  }

  /** The policies differ on dates: the older converter emits the example
      row, dated 31/02/2025, and the current one drops it. */
  lemma OldKeepsImpossibleDate()
    ensures var row: Row := [None, Some("Ana"), Some("31/02/2025")];
      var cols := map[Cliente := 1, Data := 2];
      && OldRowRecord(row, cols, "") == Some(Appointment("", "Ana", "", "", "31/02/2025", "", ""))
      && RowRecord(row, cols, "") == None
  {
    var row: Row := [None, Some("Ana"), Some("31/02/2025")];
    var cols := map[Cliente := 1, Data := 2];
    ImpossibleDateRow(row, cols);
    IsValidDateIsCalendarDay("31/02/2025");
  }

  // ---------------------------------------------------------------------
  // Pages and the whole document
  // ---------------------------------------------------------------------

  function OldTableRule(names: seq<string>): (Table, nat) -> seq<Appointment>
  {
    (t: Table, k: nat) => OldTableRecords(t, NameFor(names, k))
  }

  /** The table loop of a page: the processed tables in order, the k-th
      under the k-th staff name. */
  function OldTablesRecords(tables: seq<Table>, names: seq<string>): seq<Appointment>
  {
    CountedConcat(tables, IsProcessed, OldTableRule(names))
  }

  /** The records of one page: nothing when it has no tables. */
  function OldPageRecords(page: Page): seq<Appointment>
  {
    if page.Unreadable? || page.tables == [] then []
    else OldTablesRecords(page.tables, StaffNames(page.text))
  }

  /** Every record of a page comes from its k-th processed table, under the
      k-th staff name of the page or '' once the names run out. */
  lemma OldPagePairsWithNames(page: Page, a: Appointment) returns (k: nat)
    requires a in OldPageRecords(page)
    ensures page.Page?
    ensures k < |Kept(page.tables, IsProcessed)|
    ensures a in OldTableRecords(Kept(page.tables, IsProcessed)[k], NameFor(StaffNames(page.text), k))
    ensures OldSoundRecord(a, NameFor(StaffNames(page.text), k))
  {
    var rule := OldTableRule(StaffNames(page.text));
    CountedConcatIsIndexed(page.tables, IsProcessed, rule);
    k := IndexedConcatOrigin(Kept(page.tables, IsProcessed), rule, a);
    OldTableRecordsSound(Kept(page.tables, IsProcessed)[k], NameFor(StaffNames(page.text), k));
  }

  function OldDocumentRecords(pages: seq<Page>): seq<Appointment>
  {
    ConcatMap(ReadablePrefix(pages), OldPageRecords)
  }

  /** The work done for one readable page. */
  method ExtractOldPageAppointments(page: Page) returns (records: seq<Appointment>)
    requires page.Page?
    ensures records == OldPageRecords(page)
  {
    records := [];
    var tables := page.tables;
    if tables != [] {
      var veterinarios := StaffNames(page.text);
      var vetIndex := 0;
      var t := 0;
      while t < |tables|
        invariant 0 <= t <= |tables|
        invariant vetIndex == CountKept(tables[..t], IsProcessed)
        invariant records == CountedConcat(tables[..t], IsProcessed, OldTableRule(veterinarios))
      {
        var table := tables[t];
        CountedConcatExtend(tables, t, IsProcessed, OldTableRule(veterinarios), records, vetIndex, |table| >= 2);
        if |table| >= 2 {
          var veterinario := NameFor(veterinarios, vetIndex);
          var tableAppointments := ParseOldTable(table, veterinario);
          assert tableAppointments == OldTableRule(veterinarios)(table, vetIndex);
          records := records + tableAppointments;
          vetIndex := vetIndex + 1;
        }
        t := t + 1;
      }
      assert tables[..|tables|] == tables;
    }
  }

  /** The page loop: pages in order until the library fails on one. */
  method ExtractOldAppointmentsFromPdf(pages: seq<Page>) returns (appointments: seq<Appointment>)
    ensures appointments == OldDocumentRecords(pages)
  {
    appointments := [];
    var p := 0;
    while p < |pages|
      invariant 0 <= p <= |pages|
      invariant forall k :: 0 <= k < p ==> pages[k].Page?
      invariant appointments == ConcatMap(pages[..p], OldPageRecords)
    {
      if pages[p].Unreadable? {
        ReadablePrefixEndsAt(pages, p);
        return;
      }
      assert forall k :: 0 <= k < p + 1 ==> pages[k].Page?;
      var pageAppointments := ExtractOldPageAppointments(pages[p]);
      ConcatMapExtend(pages, p, OldPageRecords, appointments, pageAppointments);
      appointments := appointments + pageAppointments;
      p := p + 1;
    }
    ReadablePrefixEndsAt(pages, p);
  }

  /** The older converter's result: as the current one's, over its own
      records (its frame has the same columns in the same order). */
  function OldConvertPdfToExcel(pdfPath: string, month: string, document: Option<seq<Page>>,
                                writeSucceeds: bool): (r: Option<Workbook.Conversion>)
    ensures r.Some? <==> document.Some? && OldDocumentRecords(document.value) != [] && writeSucceeds
    ensures r.Some? ==> r.value == Workbook.Conversion(Workbook.ExcelPathForPdf(pdfPath, month),
                                              SheetOf(OldDocumentRecords(document.value)))
  {
    match document
    case None => None
    case Some(pages) => WriteRecords(pdfPath, month, OldDocumentRecords(pages), writeSucceeds)
  }
}
