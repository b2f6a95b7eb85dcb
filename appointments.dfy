/** The appointment extractor (`src/appointment_extractor.py`): the parts of
    it that do not drive the browser. It turns the ISO dates it is given
    into the DD/MM/YYYY form the report URL wants, builds that URL and the
    name of the downloaded file, and wraps the download and the text
    converter's workbook into its one-element result. The download itself is
    a parameter: the path it produced, or None when all three methods
    failed. */
module Appointments {
  import opened TextUtil
  import opened Calendar
  import opened Paths
  import opened PdfPages
  import TextConverter
  import Workbook
  import Settings

  // ---------------------------------------------------------------------
  // Dates for the URL
  // ---------------------------------------------------------------------

  /** `_format_date_for_url`: `strptime(s, '%Y-%m-%d')` followed by
      `strftime('%d/%m/%Y')`, or None where `strptime` raises. */
  function FormatDateForUrl(s: string): (r: Option<string>)
    ensures r.Some? <==> ParseYmd(s).Some?
  {
    match ParseYmd(s)
    case None => None
    case Some(d) =>
      ParseYmdValid(s);
      Some(FormatDmy(d))
  }

  /** What the URL gets is DD/MM/YYYY, and `strptime(_, '%d/%m/%Y')` reads
      it back as the same day. */
  lemma FormatDateForUrlReadsBack(s: string)
    requires FormatDateForUrl(s).Some?
    ensures DmyShape(FormatDateForUrl(s).value)
    ensures ParseDmy(FormatDateForUrl(s).value) == ParseYmd(s)
  {
    var d := ParseYmd(s).value;
    ParseYmdValid(s);
    FormatDmyShape(d);
    DmyRoundTrip(d);
  }

  /** An ISO date of a real day becomes the same day written DD/MM/YYYY. */
  lemma IsoDateBecomesDmy(d: Date)
    requires IsValid(d)
    ensures FormatDateForUrl(FormatYmd(d)) == Some(FormatDmy(d))
  {
    YmdRoundTrip(d);
  }

  /** A day the month does not have is refused rather than rolled over. */
  lemma ImpossibleDayNotFormatted()
    ensures FormatDateForUrl("2025-02-29") == None
  {
    ParseYmdRefusesImpossibleDay();
  }

  /** The 29th of February of a leap year is kept. */
  lemma LeapDayFormatted()
    ensures FormatDateForUrl("2024-02-29") == Some("29/02/2024")
  {
    ParseYmdRefusesImpossibleDay();
    FormatDmyLeapDay();
  }

  /** A configured month, turned into its range and then into the URL's
      form, is its first and its last day written DD/MM/YYYY. */
  lemma MonthReportPeriod(month: string)
    requires Settings.DateRangeFromMonth(month).Some?
    requires DigitsValue(month[..4]) >= 1
    ensures var y := DigitsValue(month[..4]);
      var m := DigitsValue(month[4..]);
      var range := Settings.DateRangeFromMonth(month).value;
      && FormatDateForUrl(range.0) == Some(FormatDmy(Date(y, m, 1)))
      && FormatDateForUrl(range.1) == Some(FormatDmy(Date(y, m, DaysInMonth(y, m))))
  {
    Settings.DateRangeIsWholeMonth(month);
  }

  // ---------------------------------------------------------------------
  // The report URL and the file name
  // ---------------------------------------------------------------------

  const ReportPrefix: string := "https://app.simples.vet/agenda/agenda_relatorio_v2.php?"

  /** The report URL of a period, dates in DD/MM/YYYY. */
  function ReportUrl(start: string, end: string): (url: string)
    ensures StartsWith(url, ReportPrefix + "tipo=lista&data=")
    ensures |url| == |ReportPrefix| + 16 + |start| + 1 + |end|
  {
    ReportPrefix + "tipo=lista&data=" + start + "-" + end
  }

  /** Two periods written DD/MM/YYYY have the same URL only when they are
      the same period: the URL fixes both dates. */
  lemma ReportUrlInjective(a: string, b: string, c: string, d: string)
    requires DmyShape(a) && DmyShape(b) && DmyShape(c) && DmyShape(d)
    requires ReportUrl(a, b) == ReportUrl(c, d)
    ensures a == c && b == d
  {
    var n := |ReportPrefix| + 16;
    assert ReportUrl(a, b)[n..n + 10] == a;
    assert ReportUrl(c, d)[n..n + 10] == c;
    assert ReportUrl(a, b)[n + 11..] == b;
    assert ReportUrl(c, d)[n + 11..] == d;
  }

  /** The base name of the downloaded file: `{month}-agendamentos` for a
      month, otherwise the two dates with every '/' written '_'. An empty
      month string counts as no month, as Python's truth test has it. */
  function BaseFilename(start: string, end: string, month: string): (name: string)
    ensures month != "" ==> |name| == |month| + 13 && name[..|month|] == month
    ensures month == "" ==> |name| == 13 + |start| + 1 + |end| && name[..13] == "agendamentos_"
  {
    if month != "" then month + "-agendamentos"
    else "agendamentos_" + ReplaceChar(start, '/', '_') + "_" + ReplaceChar(end, '/', '_')
  }

  predicate NoSlash(s: string) { forall i :: 0 <= i < |s| ==> s[i] != '/' }

  /** The base name never holds a '/' of the dates, so it names one file of
      the download directory (a month without '/' gives one too). */
  lemma BaseFilenameIsOneName(start: string, end: string, month: string)
    requires NoSlash(month)
    ensures NoSlash(BaseFilename(start, end, month))
  {
    var name := BaseFilename(start, end, month);
    if month == "" {
      var s := ReplaceChar(start, '/', '_');
      var e := ReplaceChar(end, '/', '_');
      assert name == "agendamentos_" + s + "_" + e;
      forall i | 0 <= i < |name|
        ensures name[i] != '/'
      {
        if i < 13 {
        } else if i < 13 + |s| {
          assert name[i] == s[i - 13];
        } else if i == 13 + |s| {
        } else {
          assert name[i] == e[i - 14 - |s|];
        }
      }
    } else {
      assert name == month + "-agendamentos";
      forall i | 0 <= i < |name|
        ensures name[i] != '/'
      {
        if i < |month| {
          assert name[i] == month[i];
        }
      }
    }
  }

  /** '/' to '_' loses nothing on a string without '_'. */
  lemma SlashToUnderscoreInjective(a: string, b: string)
    requires |a| == |b|
    requires forall i :: 0 <= i < |a| ==> a[i] != '_' && b[i] != '_'
    requires ReplaceChar(a, '/', '_') == ReplaceChar(b, '/', '_')
    ensures a == b
  {
    forall i | 0 <= i < |a|
      ensures a[i] == b[i]
    {
      assert ReplaceChar(a, '/', '_')[i] == ReplaceChar(b, '/', '_')[i];
    }
  }

  lemma DmyHasNoUnderscore(s: string)
    requires DmyShape(s)
    ensures forall i :: 0 <= i < |s| ==> s[i] != '_'
  {
    forall i | 0 <= i < |s|
      ensures s[i] != '_'
    {
      assert i == 2 || i == 5 || IsDigit(s[i]);
    }
  }

  /** Without a month, different periods get different file names. */
  lemma DatedNamesDistinct(a: string, b: string, c: string, d: string)
    requires DmyShape(a) && DmyShape(b) && DmyShape(c) && DmyShape(d)
    requires BaseFilename(a, b, "") == BaseFilename(c, d, "")
    ensures a == c && b == d
  {
    var x := BaseFilename(a, b, "");
    var y := BaseFilename(c, d, "");
    assert x[13..23] == ReplaceChar(a, '/', '_');
    assert y[13..23] == ReplaceChar(c, '/', '_');
    assert x[24..] == ReplaceChar(b, '/', '_');
    assert y[24..] == ReplaceChar(d, '/', '_');
    DmyHasNoUnderscore(a);
    DmyHasNoUnderscore(b);
    DmyHasNoUnderscore(c);
    DmyHasNoUnderscore(d);
    SlashToUnderscoreInjective(a, c);
    SlashToUnderscoreInjective(b, d);
  }

  /** `_setup_download_directory`: `downloads` under the project root. */
  function DownloadDirectory(projectRoot: string): string
  {
    JoinPath(projectRoot, "downloads")
  }

  /** Where the third download method (the HTTP request) writes the PDF. */
  function RequestedPdfPath(downloadDir: string, start: string, end: string, month: string): string
  {
    JoinPath(downloadDir, BaseFilename(start, end, month) + ".pdf")
  }

  /** The requested file lands directly in the download directory, under
      the base name with ".pdf" appended. */
  lemma RequestedPdfInDirectory(downloadDir: string, start: string, end: string, month: string)
    requires downloadDir != [] && downloadDir[|downloadDir| - 1] != '/'
    requires NoSlash(month)
    ensures Dirname(RequestedPdfPath(downloadDir, start, end, month)) == downloadDir
    ensures Basename(RequestedPdfPath(downloadDir, start, end, month)) == BaseFilename(start, end, month) + ".pdf"
  {
    var name := BaseFilename(start, end, month) + ".pdf";
    BaseFilenameIsOneName(start, end, month);
    assert NoSlash(name) by {
      forall i | 0 <= i < |name|
        ensures name[i] != '/'
      {
        if i < |name| - 4 {
          assert name[i] == BaseFilename(start, end, month)[i];
        }
      }
    }
    assert RequestedPdfPath(downloadDir, start, end, month) == downloadDir + "/" + name;
    PathParts(downloadDir, name);
  }

  // ---------------------------------------------------------------------
  // The result
  // ---------------------------------------------------------------------

  /** One entry of the result list; `excelFile` is None when only the PDF
      was obtained. */
  datatype ReportEntry = ReportEntry(pdfFile: string, excelFile: Option<string>, downloadTime: real,
                                     dateRange: string, formattedDateRange: string, month: string,
                                     status: string)

  const ConvertedStatus: string := "converted_to_excel"
  const PdfOnlyStatus: string := "pdf_only"

  /** `extract_appointments`: [] when a date does not format or the
      download fails; otherwise one entry for the PDF, with the workbook
      the text converter wrote, if it wrote one. The download, the PDF
      library's reading of it, the write and the clock are parameters. */
  function ExtractAppointments(start: string, end: string, month: string, download: Option<string>,
                               document: Option<seq<Page>>, writeSucceeds: bool, now: real): (r: seq<ReportEntry>)
    ensures r == [] <==> FormatDateForUrl(start).None? || FormatDateForUrl(end).None? || download.None?
    ensures r != [] ==> |r| == 1 && r[0].pdfFile == download.value && r[0].month == month
    ensures r != [] ==> r[0].formattedDateRange == FormatDateForUrl(start).value + "-" + FormatDateForUrl(end).value
    ensures r != [] ==> r[0].dateRange == start + " to " + end
    ensures r != [] ==>
      var conversion := TextConverter.TextConvertPdfToExcel(download.value, month, document, writeSucceeds);
      && (r[0].status == ConvertedStatus <==> conversion.Some?)
      && (r[0].status == PdfOnlyStatus <==> conversion.None?)
      && (conversion.Some? ==> r[0].excelFile == Some(conversion.value.path))
      && (conversion.None? ==> r[0].excelFile.None?)
  {
    var formattedStart := FormatDateForUrl(start);
    var formattedEnd := FormatDateForUrl(end);
    if formattedStart.None? || formattedEnd.None? then []
    else match download
      case None => []
      case Some(pdfFile) =>
        var range := start + " to " + end;
        var formattedRange := formattedStart.value + "-" + formattedEnd.value;
        match TextConverter.TextConvertPdfToExcel(pdfFile, month, document, writeSucceeds)
        case Some(conversion) =>
          [ReportEntry(pdfFile, Some(conversion.path), now, range, formattedRange, month, ConvertedStatus)]
        case None =>
          [ReportEntry(pdfFile, None, now, range, formattedRange, month, PdfOnlyStatus)]
  }

  /** When the workbook is written, it sits next to the downloaded PDF,
      named after the month when there is one. */
  lemma ConvertedEntryPath(start: string, end: string, month: string, pdfFile: string,
                           document: Option<seq<Page>>, now: real)
    requires ParseYmd(start).Some? && ParseYmd(end).Some?
    requires ExtractAppointments(start, end, month, Some(pdfFile), document, true, now)[0].status == ConvertedStatus
    ensures ExtractAppointments(start, end, month, Some(pdfFile), document, true, now)[0].excelFile ==
      Some(Workbook.ExcelPathForPdf(pdfFile, month))
  {
  }
}
