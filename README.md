# SimplesVet export extraction, modelled in Dafny

This project models the part of the SimplesVet automation that turns the
vendor's exports into records and names the files they end up in. The
browser session that produces those exports is not modelled.

- **Table-based schedule converter** (`src/scrapper/pdf_converter.py`).
  - Finds each table's header row and maps its cells to fields by keyword priority.
  - Drops blank rows and note rows, keeps only rows with a real DD/MM/YYYY date and a client or an animal.
  - Reads the staff names from the all-upper-case lines of the page text and pairs the k-th processed table with the k-th name.
  - Writes the records in a fixed column order, at most 50 characters wide per column.
- **Older table converter** (`src/pdf_converter_old.py`). The header is always the first row, the list of note phrases is shorter, and there is no date check.
- **Text-based converter** (`src/pdf_converter.py`, the one the appointment extractor uses).
  - Normalises a page's text and searches a window of lines for a date and a time.
  - Fills the remaining fields from ordered `Label: value` patterns and keyword fallbacks.
- **Sales CSV normaliser** (`_filter_and_save_csv` in `src/scrapper/venda_extractor.py`).
  - Projects the wanted columns in the wanted order.
  - Cleans the Brazilian-formatted amounts into exact decimals.
  - Decides the workbook path and whether the CSV is deleted.
- **Procedure extractor** (`src/scrapper/procedure_extractor.py`).
  - The month navigation of the date-range calendar, as a bounded loop over a (year, month) cursor.
  - The choice of the day cell, the deletion of old exports, the new name of an export, and the two-key result.
- **Appointment extractor** (`src/appointment_extractor.py`).
  - Converts ISO dates to DD/MM/YYYY, and builds the report URL and the download's file name.
  - Builds the one-entry result with its status.
- **Settings** (`src/scrapper/config.py`). Section and key lookups, credential checks against the template's placeholders, the month list, and the conversion of `YYYYMM` into the first and last day of that month.

The PDF library is taken as its outputs:
- a page is its free text plus its tables;
- a table is a list of rows of optional cell strings;
- a page on which the library raises is `Unreadable`.

The sales CSV is taken as the columns `read_csv` yields, each cell as its `astype(str)` text. The loaded JSON configuration is a value. Clocks, the success of file-system writes and renames, and the download's outcome are parameters.

Python's string and date library is written out explicitly in three modules:
- `TextUtil`: `strip`, `lower`, `upper`, `isupper`, `split`, `join`, `replace`, `str(int)`.
- `Calendar`: `strptime` with `%d/%m/%Y` and `%Y-%m-%d`, including its acceptance of one-digit fields, `strftime`, and `calendar.monthrange`.
- `Paths`: `os.path.dirname`, `basename`, `join` and `splitext`.

The loops of the source are methods proved equal to specification functions:
- the header search, the column map, the table parser and the page loops of the three converters;
- the column widths;
- the amount conversion;
- the calendar navigation, the day selection and the cleanup of old exports.

The properties are proved about those functions.

## Behaviour the proofs make explicit

These behaviours are quirks of the code, each proved as a lemma about the model:

- **Running out of staff names.** When a page has more tables than detected staff names, the remaining tables get the empty name (`src/scrapper/pdf_converter.py:104`; `TableConverter.NameFor`, `TableConverter.PageRecordsSound`).
- **One failing page ends the document.** The whole page loop sits in one `try`, so the first page the PDF library fails on ends the extraction; the records of the earlier pages are kept (`TableConverter.UnreadablePageEndsDocument`).
- **Navigation reaches 24 months.** The calendar loop makes up to 24 attempts, and the 24th move lands on the target without a further check. So the cursor ends on the target exactly when it starts at most 24 months away, one more than the 23 moves that are confirmed by reading the header (`Procedures.ReachesTargetIffNear`).
- **One record per page.** The text converter collapses every whitespace run, newlines included, into one space before it splits the text into lines. Each page therefore yields at most one record (`TextConverter.TextRecordsAtMostOne`, `TextConverter.AtMostOnePerPage`).
- **Colon captured as the value.** A label followed directly by a colon and a comma yields the colon itself as the value (`TextConverter.ColonBeforeCommaIsTheValue`).
- **Case-sensitive workbook path.** A sales export called `Vendas.CSV`, converted without a month, keeps its own name as the workbook path, because `.csv` is replaced case-sensitively, while the removal test lower-cases the name (`SalesCsv.UpperCaseExtensionKeepsPath`). The removal runs only after a successful write to that path. The download step only hands over names ending in a lower-case `.csv`, so this name does not arrive there.
- **Dead email re-check.** `get_credential` already refuses an email equal to its placeholder. The second email test in `validate_credentials` can therefore never fail, while the password test adds `SUA_SENHA_AQUI` to `SEU_PASSWORD_AQUI` (`Settings.ValidateCredentialsIff`).
- **Zero-padded day cells.** A calendar cell reading `05` is never chosen for the fifth, because the cell text is compared with `str(5)` (`Procedures.ZeroPaddedDayNotChosen`).
- **Upper-case extensions.** An export named with an upper-case `.XLS` is not deleted as an old export (`Procedures.UpperCaseExportKept`).
- **Old converter keeps impossible dates.** It emits a row dated `31/02/2025`, which the current converter drops (`OldTableConverter.OldKeepsImpossibleDate`).

## Model

| member | source | states |
|---|---|---|
| TableConverter.HeaderIndex | src/scrapper/pdf_converter.py:150-158 | the header is the first row, top-down, with a cell mentioning "cliente"; none when no row does |
| TableConverter.FindHeaderRow | src/scrapper/pdf_converter.py:147-154 | the search loop returns exactly the first header row |
| TableConverter.FieldOfPrecedence | src/scrapper/pdf_converter.py:164-180 | a header cell names the field of highest priority whose keyword it contains (cliente > animal > tipo/atendimento > data > hora > status), and none when it contains no keyword |
| TableConverter.ColumnMapLastWriter | src/scrapper/pdf_converter.py:163-180 | a field is mapped iff some truthy header cell names it, and then to the last such cell |
| TableConverter.MapOfFieldsLastWriter | src/scrapper/pdf_converter.py:163-180 | the same last-writer property for the per-cell field list |
| TableConverter.ColumnMapInjective | src/scrapper/pdf_converter.py:169-180 | two different fields never share a column |
| TableConverter.BuildColumnMap | src/scrapper/pdf_converter.py:163-180 | the dictionary-building loop yields the column map |
| TableConverter.CellValue | src/scrapper/pdf_converter.py:236-245 | '' for a missing index, an index past the row or a None cell, otherwise the stripped cell text |
| TableConverter.CellValueStripped | src/scrapper/pdf_converter.py:245 | every cell value is its own strip |
| TableConverter.StripIdempotent | src/scrapper/pdf_converter.py:245 | stripping twice is stripping once |
| TableConverter.IsValidDateIsCalendarDay | src/scrapper/pdf_converter.py:247-263 | a date passes iff it is two digits, '/', two digits, '/', four digits spelling a real calendar day |
| TableConverter.IsValidDateAcceptsRealDay | src/scrapper/pdf_converter.py:247-263 | "05/10/2025" passes |
| TableConverter.IsValidDateRefusesImpossibleDay | src/scrapper/pdf_converter.py:259-263 | "31/02/2025" is refused by the calendar check |
| TableConverter.IsValidDateRefusesIsoOrder | src/scrapper/pdf_converter.py:254-256 | "2025-10-05" is refused by the shape check |
| TableConverter.ParseSimplesvetTable | src/scrapper/pdf_converter.py:138-234 | the table loop returns the records of the rows after the header that survive every filter, in row order |
| TableConverter.RowRecordSound | src/scrapper/pdf_converter.py:208-226 | an emitted row carries the table's staff name, a real DD/MM/YYYY date, a client or an animal, and stripped fields |
| TableConverter.RowsRecordsSound | src/scrapper/pdf_converter.py:185-226 | every record of a run of rows is sound |
| TableConverter.TableRecordsSound | src/scrapper/pdf_converter.py:138-234 | every record of a table is sound for the name it was given |
| TableConverter.DroppedRowIsInvisible | src/scrapper/pdf_converter.py:185-226 | inserting a row that yields nothing leaves the table's records unchanged |
| TableConverter.BlankAndNoteRowsDropped | src/scrapper/pdf_converter.py:186-205 | blank rows and rows whose lower-cased first cell holds a note phrase yield nothing |
| TableConverter.HeaderIndexShift | src/scrapper/pdf_converter.py:150-154 | rows without "cliente" above a table shift its header index by their number |
| TableConverter.RowsAboveHeaderIgnored | src/scrapper/pdf_converter.py:150-185 | rows above the header never contribute records |
| TableConverter.TableRecordsWithoutHeader | src/scrapper/pdf_converter.py:150-185 | a table with no "cliente" header row yields no records |
| TableConverter.TableRecordsBelowHeader | src/scrapper/pdf_converter.py:150-185 | a table's records are those of the rows below its first header row, read through that row's column map |
| TableConverter.RecordsBelowShift | src/scrapper/pdf_converter.py:150-185 | rows put in front of a table shift its header's position but not the records read below it |
| TableConverter.StaffNamesMembership | src/scrapper/pdf_converter.py:124-136 | a name is detected iff some line strips to it and it is upper case, longer than 5 characters and names no heading word |
| TableConverter.NameFor | src/scrapper/pdf_converter.py:104 | the name given to a table is '' or one of the detected names |
| TableConverter.TablesPairWithNames | src/scrapper/pdf_converter.py:98-111 | every record of a page comes from its k-th table of at least two rows, parsed with the k-th name |
| TableConverter.PageRecordsSound | src/scrapper/pdf_converter.py:89-111 | every record of a page is sound and its staff name is '' or a name detected on that page |
| TableConverter.ExtractPageAppointments | src/scrapper/pdf_converter.py:89-113 | the per-page loop with its name counter yields the page's records |
| TableConverter.ExtractAppointmentsFromPdf | src/scrapper/pdf_converter.py:77-122 | the page loop yields the records of the pages before the first failing one, in page and table order |
| TableConverter.UnreadablePageEndsDocument | src/scrapper/pdf_converter.py:81-120 | a page the library fails on ends the document; earlier pages keep their records |
| TableConverter.DocumentRecordsSound | src/scrapper/pdf_converter.py:77-122 | every record of the document is sound for its own staff name |
| TableConverter.SheetRow | src/scrapper/pdf_converter.py:36-38 | a record becomes one cell per column of the fixed order |
| TableConverter.SheetOf | src/scrapper/pdf_converter.py:33-50 | the sheet is the header row in the fixed order and then one row per record, in order |
| TableConverter.WriteRecords | src/scrapper/pdf_converter.py:28-50 | a workbook exists iff there are records and the write succeeds, at the path of the output-path rule, holding the records' sheet |
| TableConverter.ConvertPdfToExcel | src/scrapper/pdf_converter.py:16-75 | no workbook when the file is missing, no record is found or the write fails; otherwise the fixed-order sheet of the document's records at the output path |
| Workbook.LongestCell | src/scrapper/pdf_converter.py:56-61 | the longest text of a column: no cell is longer and some cell is that long |
| Workbook.AdjustColumnWidths | src/scrapper/pdf_converter.py:54-64 | each column's width is its longest cell's length + 2, capped at 50; so at most 50, covering every cell unless capped, and the width of some cell |
| Workbook.ColumnWidthCapped | src/scrapper/pdf_converter.py:62 | a column is capped at 50 exactly when one of its texts is at least 48 long; otherwise every text fits in its width |
| Workbook.ExcelPathForPdfSuffix | src/scrapper/pdf_converter.py:41-46 | when ".pdf" occurs only as the suffix, both branches of the output-path rule give base + ".xlsx" |
| Workbook.ExcelPathForPdfWithoutSuffix | src/scrapper/pdf_converter.py:41-46 | a path without ".pdf" gets ".xlsx" appended with a month and is kept unchanged without one |
| OldTableConverter.ParseOldTable | src/pdf_converter_old.py:131-196 | the table loop returns the records of rows 1.. that survive the shorter filters, with row 0 as header |
| OldTableConverter.OldRowEmittedIff | src/pdf_converter_old.py:166-188 | a row that is neither blank nor a note is emitted iff its client or animal is non-empty |
| OldTableConverter.OldTableRecordsSound | src/pdf_converter_old.py:131-196 | every record carries the table's name, a client or an animal and stripped fields |
| OldTableConverter.DateFilter | src/scrapper/pdf_converter.py:220-222 | a record passes iff its date is a valid DD/MM/YYYY day, unchanged |
| OldTableConverter.OldAndCurrentAgreeUpToDates | src/pdf_converter_old.py:140-188 | on a table headed by row 0 with no note rows, the current converter's records are the older one's filtered by the date check |
| OldTableConverter.ImpossibleDateRow | src/pdf_converter_old.py:166-184 | the example row is neither blank nor a note and reads as client "Ana" dated "31/02/2025" |
| OldTableConverter.OldKeepsImpossibleDate | src/pdf_converter_old.py:186-188 | the older converter emits the row dated 31/02/2025 and the current one drops it |
| OldTableConverter.OldPagePairsWithNames | src/pdf_converter_old.py:84-104 | every record of a page comes from its k-th table of at least two rows with the k-th name, and is sound for it |
| OldTableConverter.ExtractOldPageAppointments | src/pdf_converter_old.py:82-106 | the per-page loop yields the page's records |
| OldTableConverter.ExtractOldAppointmentsFromPdf | src/pdf_converter_old.py:70-115 | the page loop yields the records of the pages before the first failing one |
| OldTableConverter.OldConvertPdfToExcel | src/pdf_converter_old.py:16-68 | a workbook iff records exist and the write succeeds, at the output path, with the records' sheet |
| TextConverter.DropNewlines | src/pdf_converter.py:103 | the input with exactly its leading newlines removed: the dropped prefix is all newlines, the rest does not start with one, and the other characters are kept |
| TextConverter.SqueezeNewlines | src/pdf_converter.py:103 | no newline follows another, the first character is kept, and the characters other than newlines are exactly those of the input, in order |
| TextConverter.Pieces | src/pdf_converter.py:103-104 | the maximal separator-free runs of a text: each is non-empty and holds no separator, and a text starting with a non-separator has one |
| TextConverter.PiecesDropSeparators | src/pdf_converter.py:103-104 | leading separators add no piece |
| TextConverter.SqueezeNewlinesKeepsLines | src/pdf_converter.py:103 | the text between newline runs is the same, in order, so no run is dropped and none is split |
| TextConverter.SqueezeNewlinesKeepsEnd | src/pdf_converter.py:103 | the result ends with a newline exactly when the input did; with the clauses above, each newline run became exactly one newline |
| TextConverter.TrimStartKeepsNonSpace | src/pdf_converter.py:104 | skipping leading whitespace loses no other character |
| TextConverter.CollapseSpace | src/pdf_converter.py:104 | the only whitespace left is single spaces, the first character becomes a space iff it was whitespace, and the non-whitespace characters are exactly those of the input, in order |
| TextConverter.CollapseSpaceKeepsWords | src/pdf_converter.py:104 | the words (`str.split()`) are the same; with CollapseSpaceKeepsEnd and the clauses on CollapseSpace, each whitespace run became exactly one space |
| TextConverter.CollapseSpaceKeepsEnd | src/pdf_converter.py:104 | the result ends with a space iff the input ended with whitespace |
| TextConverter.NormalizedIsOneLine | src/pdf_converter.py:103-106 | the normalised text has no newline, so splitting it yields one line |
| TextConverter.DateMatchAtIsDateText | src/pdf_converter.py:131-140 | the date pattern matches at a position iff some text from there has the date's shape, and its match has that shape |
| TextConverter.SearchDate | src/pdf_converter.py:140 | a found date is the match of the pattern at the first position where it matches; none means no position matches |
| TextConverter.SearchTime | src/pdf_converter.py:134-143 | a found time is the match of the pattern at the first position where it matches; none means no position matches |
| TextConverter.SearchTimeIsLeftmost | src/pdf_converter.py:143 | the time found is the one starting leftmost |
| TextConverter.SearchTimeNotEmpty | src/pdf_converter.py:134-143 | a time found is at least four characters long |
| TextConverter.SearchDateIsLeftmost | src/pdf_converter.py:140 | the date found is the one starting leftmost |
| TextConverter.SearchDateIsDateText | src/pdf_converter.py:131-140 | a date found has the shape of a date |
| TextConverter.SpaceRunEnd | src/pdf_converter.py:171 | the end of the whitespace run of `\s*` |
| TextConverter.CaptureEnd | src/pdf_converter.py:171 | the greedy `[^,\n]+` capture stops at the first comma, newline or end |
| TextConverter.SearchLabel | src/pdf_converter.py:177-179 | a labelled value is the stripped capture of the match at the first position where the pattern matches; none means no position matches |
| TextConverter.SearchLabelIsLeftmost | src/pdf_converter.py:177-179 | the value found is the capture of the leftmost match |
| TextConverter.FirstLabelled | src/pdf_converter.py:176-181 | the first pattern in list order that matches gives the value |
| TextConverter.CaptureStartUsual | src/pdf_converter.py:171 | after the label and spaces, a colon is skipped with the spaces after it when a capture can start there; otherwise the capture starts at the first non-space |
| TextConverter.ColonBeforeCommaIsTheValue | src/pdf_converter.py:186-194 | on "Cliente:, Animal: Rex" the client read is ":" |
| TextConverter.ColonThenComma | src/pdf_converter.py:186 | a colon followed by a comma is captured alone |
| TextConverter.FirstKeyword | src/pdf_converter.py:228-231 | the first keyword in list order present as a whole word, title-cased; none when no keyword is present |
| TextConverter.TitleWord | src/pdf_converter.py:231 | title-casing a word upper-cases its first letter and lower-cases the rest, keeping the length |
| TextConverter.LabelledOrEmpty | src/pdf_converter.py:176-181 | the first labelled value, or '' |
| TextConverter.TipoAtendimentoFallback | src/pdf_converter.py:213-233 | without a labelled value, the type is '' iff no keyword is present, else the first present keyword title-cased |
| TextConverter.Status | src/pdf_converter.py:235-253 | the first labelled value when a label matches; otherwise the first keyword present, title-cased; otherwise "Não informado" |
| TextConverter.Excerpt | src/pdf_converter.py:155 | the text itself up to 200 characters, else its first 200 characters and "..." |
| TextConverter.ContextRecordIffDate | src/pdf_converter.py:136-160 | a window yields a record iff it holds a date; the record carries the leftmost date (of date shape), the leftmost time or '', and the excerpt |
| TextConverter.ContextRecordTimeEmptyIffNone | src/pdf_converter.py:143-153 | a record's time is empty exactly when the window holds no time |
| TextConverter.ContextRecordFields | src/pdf_converter.py:147-154 | the other fields are the field extractors applied to the joined window |
| TextConverter.ParseAppointmentsFromText | src/pdf_converter.py:97-122 | the line loop yields the records of the non-blank lines' windows, in order |
| TextConverter.TextRecordsAtMostOne | src/pdf_converter.py:103-117 | a page's records are none or the one record of its whole normalised text |
| TextConverter.ExtractTextAppointmentsFromPdf | src/pdf_converter.py:70-95 | the page loop skips pages without text and stops at the first failing page |
| TextConverter.AtMostOnePerPage | src/pdf_converter.py:78-88 | a document yields at most one record per page |
| TextConverter.TextSheetRow | src/pdf_converter.py:33-45 | a record becomes one cell per column |
| TextConverter.TextSheetOf | src/pdf_converter.py:33-45 | the sheet is the header row of the record keys and then one row per record, in order |
| TextConverter.TextConvertPdfToExcel | src/pdf_converter.py:16-68 | a workbook iff the file exists, records exist and the write succeeds, at the output path, with one row per record |
| PdfPages.ReadablePrefix | src/pdf_converter.py:74-95 | the pages read before the first the library fails on |
| PdfPages.ReadablePrefixEndsAt | src/pdf_converter.py:74-95 | the readable prefix ends exactly at the first failing page |
| SalesCsv.Selected | src/scrapper/venda_extractor.py:163-168 | a column is kept iff it is wanted and present, at most the wanted ones |
| SalesCsv.SelectedInWantedOrder | src/scrapper/venda_extractor.py:168 | the kept columns follow the wanted list's order |
| SalesCsv.Project | src/scrapper/venda_extractor.py:168 | each kept column holds the text of the first input column of that name |
| SalesCsv.CleanAmount | src/scrapper/venda_extractor.py:174-180 | the cleaned text holds only digits, '.' and '-' |
| SalesCsv.CleanAmountPoints | src/scrapper/venda_extractor.py:177-178 | the cleaned text has as many points as the input has commas |
| SalesCsv.CleanBrazilian | src/scrapper/venda_extractor.py:174-180 | "digits and thousands points, comma, digits" cleans to the digits, a point and the decimals |
| SalesCsv.BrazilianAmount | src/scrapper/venda_extractor.py:174-181 | such an amount reads as the exact decimal of its digits with the decimals' scale |
| SalesCsv.ThousandsAndDecimals | src/scrapper/venda_extractor.py:177-181 | "1.500,00" becomes 1500.00 |
| SalesCsv.EmptyCellIsMissing | src/scrapper/venda_extractor.py:181 | an empty cell becomes a missing value, not 0 |
| SalesCsv.ParseDecimal | src/scrapper/venda_extractor.py:181 | the empty text is not a number, and a negative value needs a leading '-' |
| SalesCsv.ParseDecimalIff | src/scrapper/venda_extractor.py:181 | a cleaned text reads as a number exactly when, after an optional '-', it is digits with at most one point and at least one digit; the value is all its digits, negated under the sign, scaled by the digits after the point |
| SalesCsv.PointedIsDecimalText | src/scrapper/venda_extractor.py:181 | digits, a point and digits form a number exactly when both runs are digits and not both empty |
| SalesCsv.PointedDigitsAndDecimals | src/scrapper/venda_extractor.py:181 | such a number's digits are both runs and its decimals those after the point |
| SalesCsv.ToNumber | src/scrapper/venda_extractor.py:174-181 | a cell becomes the number its cleaned text spells, or missing when it spells none |
| SalesCsv.ConvertColumn | src/scrapper/venda_extractor.py:174-181 | a converted column keeps its name and length and converts every cell |
| SalesCsv.Converted | src/scrapper/venda_extractor.py:171-181 | only the five amount columns change, each into numbers or missing values |
| SalesCsv.ConvertNumericColumns | src/scrapper/venda_extractor.py:171-181 | the conversion loop over the columns yields the converted sheet |
| SalesCsv.SalesPathsInDirectory | src/scrapper/venda_extractor.py:183-193 | with a month the workbook is `dir/{month}-vendas.xlsx`; the CSV is removed iff its lower-cased name is "vendas.csv" |
| SalesCsv.UpperCaseExtensionKeepsPath | src/scrapper/venda_extractor.py:186-193 | "Vendas.CSV" without a month is its own workbook path, and its name passes the removal test |
| SalesCsv.FilterAndSaveCsv | src/scrapper/venda_extractor.py:153-197 | no result when the unguarded write fails (the CSV is kept); otherwise the output path, the projected and converted sheet, and removal of the CSV iff its lower-cased name is "vendas.csv" |
| SalesCsv.ReplaceCharCount | src/scrapper/venda_extractor.py:178 | replacing ',' by '.' turns the point count into the comma and point counts |
| SalesCsv.FilterCount | src/scrapper/venda_extractor.py:177-179 | deleting characters keeps exactly the count of kept characters |
| Procedures.MonthNumber | src/scrapper/procedure_extractor.py:114-140 | a month name reads as its number, anything else as 0 |
| Procedures.MonthNamesDistinct | src/scrapper/procedure_extractor.py:114-118 | the twelve month names differ |
| Procedures.MonthNumberOfName | src/scrapper/procedure_extractor.py:114-140 | the m-th name reads as m |
| Procedures.YearReads | src/scrapper/procedure_extractor.py:141 | a year written in decimal reads back as itself |
| Procedures.ReadTwoWords | src/scrapper/procedure_extractor.py:131-141 | a header of two words reads as (year, month number) when the year parses |
| Procedures.StandardHeaderReads | src/scrapper/procedure_extractor.py:131-141 | the header "Outubro 2025" form of any month reads as that month |
| Procedures.DecideRead | src/scrapper/procedure_extractor.py:135-163 | stop on an unreadable header, arrive iff the header shows the target, step forward iff it shows an earlier month |
| Procedures.UnknownMonthMovesForward | src/scrapper/procedure_extractor.py:140-154 | an unknown month name in the target's year reads as month 0 and steps forward |
| Procedures.UnreadableHeaderStops | src/scrapper/procedure_extractor.py:134-137 | a header that is not two words stops the loop where it is |
| Procedures.NavigateCalendar | src/scrapper/procedure_extractor.py:121-166 | the navigation loop ends on the month the bounded navigation function gives |
| Procedures.MonthSteps | src/scrapper/procedure_extractor.py:148-163 | next and previous move the month index by one |
| Procedures.IndexOrder | src/scrapper/procedure_extractor.py:144-148 | the (year, month) comparison is the comparison of month indices |
| Procedures.NavigateDistance | src/scrapper/procedure_extractor.py:121-163 | with a truthful header, n attempts move the cursor n months toward the target, stopping on it |
| Procedures.FaithfulReadsTrue | src/scrapper/procedure_extractor.py:131-141 | a header that shows its month reads as that month |
| Procedures.ReachesIffNear | src/scrapper/procedure_extractor.py:121-163 | the cursor ends on the target iff it starts at most 24 months away |
| Procedures.ReachesTargetIffNear | src/scrapper/procedure_extractor.py:121-163 | the same for the calendar's own header text |
| Procedures.SelectDay | src/scrapper/procedure_extractor.py:169-182 | the first cell whose stripped text is `str(day)` is clicked; none when no cell matches |
| Procedures.ZeroPaddedDayNotChosen | src/scrapper/procedure_extractor.py:175 | a cell "05" does not match the fifth |
| Procedures.CleanupOldAtendimentosFiles | src/scrapper/procedure_extractor.py:242-255 | the cleanup loop removes the matching files of the listing, in order |
| Procedures.CleanupRemovesExactly | src/scrapper/procedure_extractor.py:246-250 | a file is removed iff it is listed, its lower-cased name holds "atendimento" and it ends in ".xls" or ".xlsx" |
| Procedures.UpperCaseExportKept | src/scrapper/procedure_extractor.py:247 | "Atendimentos.XLS" is not removed |
| Procedures.EventSlug | src/scrapper/procedure_extractor.py:317 | each character of the name becomes '-' if it is a space and its lower case otherwise; so the slug has no space and no upper-case letter |
| Procedures.RenameExcelFile | src/scrapper/procedure_extractor.py:308-338 | a failed rename returns the original path; otherwise the new name in the export's directory |
| Procedures.RenamedInPlace | src/scrapper/procedure_extractor.py:311-326 | `dir/name` with a month becomes `dir/{month}-{slug}{extension of name}` |
| Procedures.RenamedExportsDiffer | src/scrapper/procedure_extractor.py:320-326 | the vaccine and exam exports of one directory are never renamed to the same path, whether both use the month or each uses its own `%Y%m%d_%H%M%S` timestamp |
| Procedures.ExportFor | src/scrapper/procedure_extractor.py:232-240 | no path without a download, otherwise the download renamed |
| Procedures.ExtractProcedures | src/scrapper/procedure_extractor.py:27-55 | each of the two keys holds a path iff its export was downloaded, renamed with "Vacina" and "Exames", each rename with its own timestamp |
| Procedures.ExtractedExportsDiffer | src/scrapper/procedure_extractor.py:27-55 | with both exports downloaded into one directory and renamed, the two keys hold different paths |
| Appointments.FormatDateForUrl | src/appointment_extractor.py:67-76 | a date is formatted iff `strptime` with `%Y-%m-%d` accepts it |
| Appointments.FormatDateForUrlReadsBack | src/appointment_extractor.py:71-73 | the formatted date has the DD/MM/YYYY shape and reads back as the same day |
| Appointments.IsoDateBecomesDmy | src/appointment_extractor.py:67-76 | the ISO form of a real day becomes its zero-padded DD/MM/YYYY form |
| Appointments.ImpossibleDayNotFormatted | src/appointment_extractor.py:71-76 | "2025-02-29" is refused |
| Appointments.LeapDayFormatted | src/appointment_extractor.py:71-73 | "2024-02-29" becomes "29/02/2024" |
| Appointments.MonthReportPeriod | src/appointment_extractor.py:67-76 | the dates of a month's range format as its first and last day |
| Appointments.ReportUrl | src/appointment_extractor.py:89 | the URL starts with the report address and `tipo=lista&data=`, followed by exactly the two dates joined by '-' in length |
| Appointments.ReportUrlInjective | src/appointment_extractor.py:89 | different periods give different URLs |
| Appointments.BaseFilename | src/appointment_extractor.py:99-102 | `{month}-agendamentos` with a month, else `agendamentos_` followed by the two dates |
| Appointments.BaseFilenameIsOneName | src/appointment_extractor.py:99-102 | the base name has no '/' |
| Appointments.SlashToUnderscoreInjective | src/appointment_extractor.py:102 | turning '/' into '_' loses nothing on text without '_' |
| Appointments.DmyHasNoUnderscore | src/appointment_extractor.py:102 | a DD/MM/YYYY date has no '_' |
| Appointments.DatedNamesDistinct | src/appointment_extractor.py:102 | without a month, different periods get different base names |
| Appointments.RequestedPdfInDirectory | src/appointment_extractor.py:183-184 | the requested PDF lies in the download directory under the base name plus ".pdf" |
| Appointments.ExtractAppointments | src/appointment_extractor.py:19-65 | [] iff a date fails to format or the download fails; otherwise one entry whose status and Excel path follow the text converter's outcome |
| Appointments.ConvertedEntryPath | src/appointment_extractor.py:38-52 | a converted entry's Excel path is the output path of its PDF |
| Settings.GetConfig | src/scrapper/config.py:51-60 | KeyError for a missing section or key, the whole section without a key, else the key's value |
| Settings.GetConfigKeyOfSection | src/scrapper/config.py:54-60 | a key lookup succeeds iff the section is an object holding the key, giving its value |
| Settings.Placeholder | src/scrapper/config.py:77 | the placeholder `SEU_<CREDENTIAL>_AQUI` is nine characters longer than the name |
| Settings.GetCredential | src/scrapper/config.py:73-82 | a value is returned iff it is stored, truthy and not the placeholder in upper case; missing entries give none |
| Settings.PlaceholdersOfCredentials | src/scrapper/config.py:77 | the placeholders are SEU_EMAIL_AQUI and SEU_PASSWORD_AQUI |
| Settings.ValidateCredentialsIff | src/scrapper/config.py:145-155 | true iff the email is filled in and not SEU_EMAIL_AQUI, and the password is filled in and neither SEU_PASSWORD_AQUI nor SUA_SENHA_AQUI |
| Settings.NoCredentialsRefused | src/scrapper/config.py:145-149 | without a credentials entry the validation is false |
| Settings.TemplateRefused | src/scrapper/config.py:152-153 | a password of the template is refused |
| Settings.GetMonths | src/scrapper/config.py:94-100 | [] for a missing section or key, the list when "months" is a list, [] when it is not; only a section that is not an object can raise |
| Settings.DateRangeFromMonth | src/scrapper/config.py:112-133 | a range iff six digits with a month 1..12; from `YYYY-MM-01` to `YYYY-MM-<days in month>` |
| Settings.DateRangeIsWholeMonth | src/scrapper/config.py:123-128 | both ends read as the first and last day of the month, and the day after the end does not exist |
| Settings.LeapFebruaryRange | src/scrapper/config.py:127 | "202402" ends on the 29th |
| Settings.CenturyFebruaryRange | src/scrapper/config.py:127 | "190002" ends on the 28th |
| Settings.BadMonthsRefused | src/scrapper/config.py:114-121 | "202513", "202500", "20259" and "2025-9" are refused |
| Settings.TwoDigitsOf | src/scrapper/config.py:118-124 | `{m:02d}` of the value of two digits gives the digits back |
| Settings.FourDigitsOf | src/scrapper/config.py:117-124 | `{y:04d}` of the value of four digits gives the digits back |
| Calendar.DaysInMonth | src/scrapper/config.py:127 | every month has 28 to 31 days |
| Calendar.YearLength | src/scrapper/config.py:127 | the month lengths add up to 366 in a leap year and 365 otherwise |
| Calendar.DmyRoundTrip | src/scrapper/pdf_converter.py:260 | what `%d/%m/%Y` formatting writes, `strptime` reads back |
| Calendar.ParseDmyOnShape | src/scrapper/pdf_converter.py:260 | on DD/MM/YYYY text `strptime` gives the spelled day iff it exists |
| Calendar.FormatDmyShape | src/appointment_extractor.py:73 | formatting gives the DD/MM/YYYY shape spelling the day |
| Calendar.YmdRoundTrip | src/scrapper/procedure_extractor.py:186-187 | what `%Y-%m-%d` formatting writes, `strptime` reads back |
| Calendar.ParseYmdValid | src/appointment_extractor.py:71 | whatever `strptime` accepts is a real day |
| Calendar.ParseYmdAcceptsShortFields | src/appointment_extractor.py:71 | "2025-1-5" is accepted as 5 January 2025 |
| Calendar.ParseYmdRefusesImpossibleDay | src/appointment_extractor.py:71 | "2025-02-29" is refused and "2024-02-29" accepted |
| Calendar.FormatDmyLeapDay | src/appointment_extractor.py:73 | 29 February 2024 is written "29/02/2024" |
| Paths.PathParts | src/scrapper/procedure_extractor.py:311 | the directory of `dir/name` is dir and its file name is name |
| Paths.NameExtension | src/scrapper/procedure_extractor.py:314 | the extension is empty or a '.' without another '.' that ends the name |
| TextUtil.StripEmptyIffAllSpace | src/scrapper/pdf_converter.py:186 | a cell strips to '' iff it is all whitespace |
| TextUtil.StripIsTrimmedSlice | src/scrapper/pdf_converter.py:245 | `strip()` is the slice between the leading and trailing whitespace |
| TextUtil.ReplaceSuffixOnly | src/pdf_converter.py:38-41 | replacing a pattern that occurs only as a suffix replaces that suffix |
| TextUtil.ReplaceAbsent | src/scrapper/venda_extractor.py:186 | replacing a pattern that does not occur changes nothing |
| TextUtil.NatToStringRoundTrip | src/scrapper/procedure_extractor.py:141 | `int(str(n))` is n |
| TextUtil.NatToStringInjective | src/scrapper/procedure_extractor.py:175 | different days have different `str` forms |

## Left out

- Browser automation is not part of this model: login, page navigation, element lookups, clicks, waits and the three download methods of the appointment extractor. The download's outcome and the calendar header are parameters.
- Download polling is not part of this model: sleeps, file sizes and modification times. The file it finds is a parameter.
- File-system I/O is not part of this model: existence checks, directory creation, deleting and renaming. Whether a write or rename succeeds is a parameter, and the files to delete are returned rather than deleted.
- PDF parsing and xlsx serialisation are left out. Pages and tables are values, and a sheet is a grid of cell texts.
- The sales page's own calendar loop is left out, as is the logging.
- `get_browser_config` and `get_logging_config` are left out. They only return a whole section, which `Settings.GetConfig` with no key models.
- The older converter's text-parsing helpers are left out as separate members. They are identical to the text converter's, and nothing in the older converter calls them; `TextConverter` models them once.
- Loading the JSON file and its errors are left out. The loaded document is a value.
- `src/config.py` is not part of this model. It repeats the credential logic of `src/scrapper/config.py`.
- SalesCsv.ToNumber: amounts are exact decimals rather than the floats `pd.to_numeric` gives.
- SalesCsv.FilterAndSaveCsv: cells are taken as the text `astype(str)` gives them. The type inference of `read_csv` that decides that text is not modelled; for example, a column read as floats prints "1.5" for "1.500".
- Settings.GetConfig: JSON numbers are integers; floats from the configuration are not modelled.
- TextUtil.LowerStr: `lower`, `upper`, `isupper` and `isspace` are fixed over Latin-1 plus Python's whitespace set. Other Unicode letters are taken as uncased. `TextUtil.Upper` leaves ß and µ unchanged, while Python upper-cases them to "SS" and to Greek capital mu.
- Settings.GetCredential: because of the ß and µ case above, a stored password such as "seu_paßword_aqui" is returned, while the code upper-cases it to the placeholder and refuses it.
- TextUtil.IsDigit: `\d`, `isdigit` and `int()` accept only ASCII digits here. Python also accepts other Unicode digits and `int()` accepts underscores.
- Calendar.FormatDmy: years below 1000 are written with four digits, while `strftime('%Y')` is platform-dependent for them (glibc writes "500" for the year 500). So Appointments.FormatDateForUrl gives "01/01/0500" for "0500-01-01", where the program may give "01/01/500".
- Settings.DateRangeFromMonth: year 0000 is accepted and given a range, as `calendar.monthrange` does. The day count for it uses the proleptic rule; such dates are refused afterwards by `strptime`.
- Appointments.ExtractAppointments: a month given as None and as '' are the same (the code only tests its truth). The download time is a parameter, not a clock.
- Procedures.RenameExcelFile: the timestamp used without a month is a parameter rather than `datetime.now()`; `Procedures.ExtractProcedures` takes one for each rename, and the clock's ordering of the two is not modelled.
- Procedures.NavigateCalendar: a header lookup that raises, and a missing next or previous button, stop the loop in the code. The model has no separate failure for them; a header text that does not read stops the loop the same way.
