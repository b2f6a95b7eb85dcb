/** The procedure extractor (`src/scrapper/procedure_extractor.py`): the
    parts of it that do not drive the browser. These are the month
    navigation of the date-range calendar, the choice of the day cell, which
    old exports are deleted, the name each export is given, and the shape
    of the result. The calendar widget is taken as a cursor on a month and a
    function giving the header text it shows for each month. */
module Procedures {
  import opened TextUtil
  import opened Paths
  import opened SeqUtil

  // ---------------------------------------------------------------------
  // The calendar header
  // ---------------------------------------------------------------------

  /** A month of a year, as the calendar shows it. */
  datatype Cursor = Cursor(year: int, month: int)

  predicate ValidCursor(c: Cursor) { 1 <= c.month <= 12 }

  const MonthNames: seq<string> := [
    "Janeiro", "Fevereiro", "Mar\U{E7}o", "Abril", "Maio", "Junho",
    "Julho", "Agosto", "Setembro", "Outubro", "Novembro", "Dezembro"]

  /** `month_map.get(name, 0)`. */
  function MonthNumber(name: string): (m: int)
    ensures 0 <= m <= 12
    ensures m == 0 <==> name !in MonthNames
    ensures m != 0 ==> MonthNames[m - 1] == name
  {
    if name in MonthNames then IndexOfName(MonthNames, name) + 1 else 0
  }

  function IndexOfName(xs: seq<string>, x: string): (k: nat)
    requires x in xs
    ensures k < |xs| && xs[k] == x
    decreases |xs|
  {
    if xs[0] == x then 0 else IndexOfName(xs[1..], x) + 1
  }

  /** Python's `int(s)` for an optional sign and ASCII digits. */
  function ParseInt(s: string): (r: Option<int>)
    ensures r.Some? ==> s != []
  {
    if s != [] && (s[0] == '-' || s[0] == '+') then
      match ParseNat(s[1..])
      case None => None
      case Some(n) =>
        var v: int := if s[0] == '-' then 0 - n as int else n as int;
        Some(v)
    else
      match ParseNat(s)
      case None => None
      case Some(n) => Some(n)
  }


  /** What the loop reads from a header: nothing (the loop stops) unless it
      is two words whose second is a number; the month is 0 when its name is
      unknown. */
  function ReadHeader(text: string): Option<Cursor>
  {
    var parts := Words(Strip(text));
    if |parts| != 2 then None
    else match ParseInt(parts[1])
      case None => None
      case Some(y) => Some(Cursor(y, MonthNumber(parts[0])))
  }

  predicate NoSpace(s: string) { forall i :: 0 <= i < |s| ==> !IsSpace(s[i]) }

  /** The run of non-whitespace from `i` ends at `e`. */
  lemma {:induction false} WordLengthIs(t: string, i: nat, e: nat)
    requires i < e <= |t| && (e == |t| || IsSpace(t[e]))
    requires forall j :: i <= j < e ==> !IsSpace(t[j])
    ensures WordLength(t, i) == e
    decreases e - i
  {
    if i + 1 < e {
      WordLengthIs(t, i + 1, e);
    }
  }

  /** A word alone splits into itself. */
  lemma OneWord(b: string)
    requires b != [] && NoSpace(b)
    ensures Words(b) == [b]
  {
    WordLengthIs(b, 0, |b|);
    assert b[|b|..] == [];
    assert b[..|b|] == b;
  }

  /** Two words separated by one space split into the two words, and strip
      leaves them alone. */
  lemma TwoWords(a: string, b: string)
    requires a != [] && b != [] && NoSpace(a) && NoSpace(b)
    ensures Strip(a + " " + b) == a + " " + b
    ensures Words(a + " " + b) == [a, b]
  {
    var s := a + " " + b;
    assert TrimStart(s) == s;
    assert TrimEnd(s) == s by { assert s[|s| - 1] == b[|b| - 1]; }
    WordLengthIs(s, 0, |a|);
    assert s[..|a|] == a;
    assert s[|a|..] == " " + b;
    assert TrimStart(" " + b) == b by {
      assert (" " + b)[1..] == b;
      assert TrimStart(b) == b;
    }
    OneWord(b);
  }

  /** No two month names are the same. */
  lemma MonthNamesDistinct()
    ensures forall i, j :: 0 <= i < j < |MonthNames| ==> MonthNames[i] != MonthNames[j]
  {
  }

  /** Each month name reads as its month. */
  lemma MonthNumberOfName(m: int)
    requires 1 <= m <= 12
    ensures MonthNumber(MonthNames[m - 1]) == m
  {
    MonthNamesDistinct();
  }

  /** A year written by `str` reads back as itself. */
  lemma YearReads(y: nat)
    ensures ParseInt(NatToString(y)) == Some(y)
  {
    NatToStringRoundTrip(y);
    assert IsDigit(NatToString(y)[0]);
  }

  /** Every month name is one non-empty word. */
  lemma MonthNamesAreWords(m: int)
    requires 1 <= m <= 12
    ensures MonthNames[m - 1] != [] && NoSpace(MonthNames[m - 1])
  {
    var name := MonthNames[m - 1];
    assert forall i :: 0 <= i < |name| ==> IsLetter(name[i]);
    LettersAreNoSpace(name);
  }

  predicate IsLetter(c: char) { 'A' <= c <= 'Z' || 'a' <= c <= 'z' || c == '\U{E7}' }

  lemma LettersAreNoSpace(s: string)
    requires forall i :: 0 <= i < |s| ==> IsLetter(s[i])
    ensures NoSpace(s)
  {
  }

  /** A year written by `str` is one non-empty word. */
  lemma YearIsWord(y: nat)
    ensures NatToString(y) != [] && NoSpace(NatToString(y))
  {
    var s := NatToString(y);
    forall i | 0 <= i < |s|
      ensures !IsSpace(s[i])
    {
      assert IsDigit(s[i]);
    }
  }

  /** Two words read as the month the first names, in the year the second
      gives. */
  lemma ReadTwoWords(a: string, b: string)
    requires a != [] && b != [] && NoSpace(a) && NoSpace(b)
    ensures ReadHeader(a + " " + b) ==
      match ParseInt(b) case None => None case Some(y) => Some(Cursor(y, MonthNumber(a)))
  {
    TwoWords(a, b);
  }

  /** The calendar's own header, "Outubro 2025", reads as the month it
      shows. */
  lemma StandardHeaderReads(c: Cursor)
    requires ValidCursor(c) && c.year >= 0
    ensures ReadHeader(MonthNames[c.month - 1] + " " + NatToString(c.year)) == Some(c)
  {
    MonthNamesAreWords(c.month);
    YearIsWord(c.year);
    ReadTwoWords(MonthNames[c.month - 1], NatToString(c.year));
    YearReads(c.year);
    MonthNumberOfName(c.month);
  }

  // ---------------------------------------------------------------------
  // Navigating to the target month
  // ---------------------------------------------------------------------

  /** The attempts the loop allows itself. */
  const MaxAttempts: nat := 24

  /** What one attempt does with the header it reads. */
  datatype Step = Malformed | Arrived | Forward | Back

  /** `(year, month) < (target.year, target.month)`, as Python compares
      tuples. */
  predicate Before(c: Cursor, target: Cursor)
  {
    c.year < target.year || (c.year == target.year && c.month < target.month)
  }

  /** One attempt, given what it read from the header: stop when it read
      nothing or the target month; otherwise click "next" when the month
      read is before the target and "prev" when it is after. */
  function DecideRead(shown: Option<Cursor>, target: Cursor): (step: Step)
    ensures step == Malformed <==> shown.None?
    ensures step == Arrived <==> shown == Some(target)
    ensures step == Forward <==> shown.Some? && shown != Some(target) && Before(shown.value, target)
  {
    match shown
    case None => Malformed
    case Some(c) =>
      if c.month == target.month && c.year == target.year then Arrived
      else if Before(c, target) then Forward
      else Back
  }

  /** One attempt on the header text. */
  function Decide(text: string, target: Cursor): Step
  {
    DecideRead(ReadHeader(text), target)
  }

  function NextMonth(c: Cursor): Cursor
  {
    if c.month >= 12 then Cursor(c.year + 1, 1) else Cursor(c.year, c.month + 1)
  }

  function PrevMonth(c: Cursor): Cursor
  {
    if c.month <= 1 then Cursor(c.year - 1, 12) else Cursor(c.year, c.month - 1)
  }

  /** What the loop reads from the header the calendar shows on each
      month. */
  function HeaderReader(header: Cursor -> string): Cursor -> Option<Cursor>
  {
    c => ReadHeader(header(c))
  }

  /** Where the calendar ends up after at most `attempts` attempts, starting
      on `c`, when `read(c)` is what the loop reads on month `c`. */
  function Navigate(c: Cursor, target: Cursor, read: Cursor -> Option<Cursor>, attempts: nat): Cursor
    decreases attempts
  {
    if attempts == 0 then c
    else match DecideRead(read(c), target)
      case Forward => Navigate(NextMonth(c), target, read, attempts - 1)
      case Back => Navigate(PrevMonth(c), target, read, attempts - 1)
      case _ => c
  }

  /** The navigation loop of `select_calendar_date`. */
  method NavigateCalendar(start: Cursor, target: Cursor, header: Cursor -> string) returns (shown: Cursor)
    ensures shown == Navigate(start, target, HeaderReader(header), MaxAttempts)
  {
    shown := start;
    var attempts := 0;
    while attempts < MaxAttempts
      invariant 0 <= attempts <= MaxAttempts
      invariant Navigate(shown, target, HeaderReader(header), MaxAttempts - attempts) ==
        Navigate(start, target, HeaderReader(header), MaxAttempts)
    {
      attempts := attempts + 1;
      var step := Decide(header(shown), target);
      if step == Malformed || step == Arrived {
        break;
      }
      if step == Forward {
        shown := NextMonth(shown);
      } else {
        shown := PrevMonth(shown);
      }
    }
  }

  /** The months counted from year 0. */
  function MonthIndex(c: Cursor): int { c.year * 12 + c.month - 1 }

  /** A header that reads as the month it shows, for every month. */
  ghost predicate Faithful(header: Cursor -> string)
  {
    forall c :: ValidCursor(c) ==> ReadHeader(header(c)) == Some(c)
  }

  /** A reading that gives the month shown, for every month. */
  ghost predicate ReadsTrue(read: Cursor -> Option<Cursor>)
  {
    forall c :: ValidCursor(c) ==> read(c) == Some(c)
  }

  lemma MonthSteps(c: Cursor)
    requires ValidCursor(c)
    ensures ValidCursor(NextMonth(c)) && MonthIndex(NextMonth(c)) == MonthIndex(c) + 1
    ensures ValidCursor(PrevMonth(c)) && MonthIndex(PrevMonth(c)) == MonthIndex(c) - 1
  {
  }

  /** On valid months, "before" is "smaller index", and equal indexes are
      equal months. */
  lemma IndexOrder(c: Cursor, t: Cursor)
    requires ValidCursor(c) && ValidCursor(t)
    ensures Before(c, t) <==> MonthIndex(c) < MonthIndex(t)
    ensures c == t <==> MonthIndex(c) == MonthIndex(t)
  {
    if c.year < t.year {
      assert MonthIndex(c) <= c.year * 12 + 11 < t.year * 12 <= MonthIndex(t);
    } else if c.year > t.year {
      assert MonthIndex(t) <= t.year * 12 + 11 < c.year * 12 <= MonthIndex(c);
    }
  }

  function Abs(x: int): nat { if x < 0 then -x else x }

  function Min(a: nat, b: nat): nat { if a < b then a else b }

  /** `n` steps from `from` towards `to`, stopping on it. */
  function Toward(from: int, to: int, n: nat): int
  {
    if to >= from then from + Min(to - from, n) else from - Min(from - to, n)
  }

  /** With a header that reads true, each attempt moves one month towards
      the target: after `n` attempts the calendar is `min(d, n)` months
      nearer, where `d` is how far the target was. */
  lemma {:induction false} NavigateDistance(c: Cursor, target: Cursor, read: Cursor -> Option<Cursor>, n: nat)
    requires ReadsTrue(read) && ValidCursor(c) && ValidCursor(target)
    ensures ValidCursor(Navigate(c, target, read, n))
    ensures MonthIndex(Navigate(c, target, read, n)) == Toward(MonthIndex(c), MonthIndex(target), n)
    decreases n
  {
    if n > 0 {
      assert read(c) == Some(c);
      IndexOrder(c, target);
      MonthSteps(c);
      var step := DecideRead(read(c), target);
      if step == Forward {
        NavigateDistance(NextMonth(c), target, read, n - 1);
      } else if step == Back {
        NavigateDistance(PrevMonth(c), target, read, n - 1);
      }
    }
  }

  lemma FaithfulReadsTrue(header: Cursor -> string)
    requires Faithful(header)
    ensures ReadsTrue(HeaderReader(header))
  {
  }

  /** With a header that reads true, the calendar reaches the target month
      exactly when it is at most 24 months away (the 24th move lands on it
      even though no attempt is left to see it). */
  lemma ReachesTargetIffNear(start: Cursor, target: Cursor, header: Cursor -> string)
    requires Faithful(header) && ValidCursor(start) && ValidCursor(target)
    ensures Navigate(start, target, HeaderReader(header), MaxAttempts) == target <==>
      Abs(MonthIndex(target) - MonthIndex(start)) <= MaxAttempts
  {
    FaithfulReadsTrue(header);
    ReachesIffNear(start, target, HeaderReader(header));
  }

  /** `ReachesTargetIffNear` for any reading that gives the month shown. */
  lemma ReachesIffNear(start: Cursor, target: Cursor, read: Cursor -> Option<Cursor>)
    requires ReadsTrue(read) && ValidCursor(start) && ValidCursor(target)
    ensures Navigate(start, target, read, MaxAttempts) == target <==>
      Abs(MonthIndex(target) - MonthIndex(start)) <= MaxAttempts
  {
    NavigateDistance(start, target, read, MaxAttempts);
    IndexOrder(Navigate(start, target, read, MaxAttempts), target);
  }

  /** A header the loop cannot read stops it where it is. */
  lemma UnreadableHeaderStops(start: Cursor, target: Cursor, header: Cursor -> string)
    requires |Words(Strip(header(start)))| != 2
    ensures Navigate(start, target, HeaderReader(header), MaxAttempts) == start
  {
  }

  /** A month name the loop does not know reads as month 0, which comes
      before every month of the same year: the loop moves forward. */
  lemma UnknownMonthMovesForward(text: string, target: Cursor)
    requires ValidCursor(target)
    requires |Words(Strip(text))| == 2 && Words(Strip(text))[0] !in MonthNames
    requires ParseInt(Words(Strip(text))[1]) == Some(target.year)
    ensures ReadHeader(text) == Some(Cursor(target.year, 0))
    ensures Decide(text, target) == Forward
  {
  }

  // ---------------------------------------------------------------------
  // Choosing the day
  // ---------------------------------------------------------------------

  /** The day loop: the first available cell whose stripped text is
      `str(day)` is clicked; None when there is none (the function then
      returns False). */
  method SelectDay(cells: seq<string>, day: nat) returns (clicked: Option<nat>)
    ensures clicked.Some? ==> clicked.value < |cells| && Strip(cells[clicked.value]) == NatToString(day)
    ensures clicked.Some? ==> forall k :: 0 <= k < clicked.value ==> Strip(cells[k]) != NatToString(day)
    ensures clicked.None? ==> forall k :: 0 <= k < |cells| ==> Strip(cells[k]) != NatToString(day)
  {
    var k := 0;
    while k < |cells|
      invariant 0 <= k <= |cells|
      invariant forall j :: 0 <= j < k ==> Strip(cells[j]) != NatToString(day)
    {
      if Strip(cells[k]) == NatToString(day) {
        return Some(k);
      }
      k := k + 1;
    }
    return None;
  }

  /** A cell reading "05" is never the fifth: `str(5)` is "5". */
  lemma ZeroPaddedDayNotChosen()
    ensures Strip("05") != NatToString(5)
  {
    assert NatToString(5) == "5";
    assert Strip("05") == "05";
  }

  // ---------------------------------------------------------------------
  // Old exports and the name of a new one
  // ---------------------------------------------------------------------

  /** An old export to delete: "atendimento" in its lower-cased name, and
      the name ending in ".xls" or ".xlsx" as written (not lower-cased). */
  predicate IsOldAtendimentosFile(filename: string)
  {
    Contains(LowerStr(filename), "atendimento") && (EndsWith(filename, ".xls") || EndsWith(filename, ".xlsx"))
  }

  function CleanupRule(): string -> Option<string>
  {
    f => if IsOldAtendimentosFile(f) then Some(f) else None
  }

  /** The cleanup loop over the directory listing: the files it deletes, in
      listing order. */
  method CleanupOldAtendimentosFiles(listing: seq<string>) returns (removed: seq<string>)
    ensures removed == FilterMap(listing, CleanupRule())
  {
    removed := [];
    var i := 0;
    while i < |listing|
      invariant 0 <= i <= |listing|
      invariant removed == FilterMap(listing[..i], CleanupRule())
    {
      var filename := listing[i];
      FilterMapExtend(listing, i, CleanupRule(), removed, CleanupRule()(filename));
      if IsOldAtendimentosFile(filename) {
        removed := removed + [filename];
      }
      i := i + 1;
    }
    assert listing[..|listing|] == listing;
  }

  /** A file is deleted exactly when it is listed and matches. */
  lemma CleanupRemovesExactly(listing: seq<string>, f: string)
    ensures f in FilterMap(listing, CleanupRule()) <==> f in listing && IsOldAtendimentosFile(f)
  {
    FilterMapMembership(listing, CleanupRule(), f);
  }

  /** The extension test is on the name as written: an upper-case ".XLS"
      export is kept. */
  lemma UpperCaseExportKept()
    ensures !IsOldAtendimentosFile("Atendimentos.XLS")
  {
    var f := "Atendimentos.XLS";
    assert f[|f| - 4..][1] == 'X';
    assert f[|f| - 5..][2] == 'X';
  }

  /** The event name as it appears in file names: lower case, spaces turned
      into hyphens. */
  function EventSlug(eventName: string): (r: string)
    ensures |r| == |eventName|
    ensures forall i :: 0 <= i < |r| ==> r[i] == if eventName[i] == ' ' then '-' else Lower(eventName[i])
    ensures forall i :: 0 <= i < |r| ==> r[i] != ' ' && !IsUpperChar(r[i])
  {
    ReplaceChar(LowerStr(eventName), ' ', '-')
  }

  /** The new file name: the month, or the timestamp when there is no month,
      a hyphen, the event slug and the original extension. */
  function NewExportName(excelPath: string, month: string, eventName: string, timestamp: string): string
  {
    (if month != "" then month else timestamp) + "-" + EventSlug(eventName) + Extension(excelPath)
  }

  /** `_rename_excel_file`: the export moved to its new name in the same
      directory, or the original path when the rename fails. */
  function RenameExcelFile(excelPath: string, month: string, eventName: string, timestamp: string,
                           renameSucceeds: bool): (r: string)
    ensures !renameSucceeds ==> r == excelPath
    ensures renameSucceeds ==> r == JoinPath(Dirname(excelPath), NewExportName(excelPath, month, eventName, timestamp))
  {
    if renameSucceeds then JoinPath(Dirname(excelPath), NewExportName(excelPath, month, eventName, timestamp))
    else excelPath
  }

  /** An export `dir/name` renamed with a month becomes
      `dir/{month}-{slug}{extension of name}`. */
  lemma RenamedInPlace(dir: string, name: string, month: string, eventName: string, timestamp: string)
    requires dir != [] && dir[|dir| - 1] != '/'
    requires forall k :: 0 <= k < |name| ==> name[k] != '/'
    requires month != [] && month[0] != '/'
    ensures RenameExcelFile(dir + "/" + name, month, eventName, timestamp, true) ==
      dir + "/" + month + "-" + EventSlug(eventName) + NameExtension(name)
  {
    var p := dir + "/" + name;
    PathParts(dir, name);
    assert Extension(p) == NameExtension(name);
    JoinRelative(dir, month, EventSlug(eventName), NameExtension(name));
  }

  /** Joining a directory with a name that starts with the month puts a
      slash between them. */
  lemma JoinRelative(dir: string, month: string, slug: string, ext: string)
    requires dir != [] && dir[|dir| - 1] != '/'
    requires month != [] && month[0] != '/'
    ensures JoinPath(dir, month + "-" + slug + ext) == dir + "/" + month + "-" + slug + ext
  {
    var n := month + "-" + slug + ext;
    assert n[0] == month[0];
    assert dir + "/" + n == dir + "/" + month + "-" + slug + ext;
  }



  // ---------------------------------------------------------------------
  // The result
  // ---------------------------------------------------------------------

  /** The two kinds of procedure exported (event codes "5" and "7" of the
      report filter, which the browser session selects). */
  datatype EventKind = Vaccines | Exams

  function EventName(k: EventKind): string
  {
    match k
    case Vaccines => "Vacina"
    case Exams => "Exames"
  }

  /** The dictionary returned: the path of each export, or None. */
  datatype ProcedureResults = ProcedureResults(vacinas: Option<string>, exames: Option<string>)

  /** The tail of `_extract_by_event_type`: nothing without a download,
      otherwise the download renamed. */
  function ExportFor(k: EventKind, download: Option<string>, month: string, timestamp: string,
                     renameSucceeds: bool): (r: Option<string>)
    ensures r.Some? <==> download.Some?
    ensures r.Some? ==> r.value == RenameExcelFile(download.value, month, EventName(k), timestamp, renameSucceeds)
  {
    match download
    case None => None
    case Some(p) => Some(RenameExcelFile(p, month, EventName(k), timestamp, renameSucceeds))
  }

  /** `extract_procedures`: vaccines (code "5") first, then exams (code
      "7"); each key holds its export or None. Each rename reads the clock
      itself, so the two exports get their own timestamps. */
  function ExtractProcedures(vaccineDownload: Option<string>, examDownload: Option<string>, month: string,
                             vaccineStamp: string, examStamp: string,
                             vaccineRenamed: bool, examRenamed: bool): (r: ProcedureResults)
    ensures r.vacinas.Some? <==> vaccineDownload.Some?
    ensures r.exames.Some? <==> examDownload.Some?
    ensures r.vacinas.Some? ==> r.vacinas.value == RenameExcelFile(vaccineDownload.value, month, "Vacina", vaccineStamp, vaccineRenamed)
    ensures r.exames.Some? ==> r.exames.value == RenameExcelFile(examDownload.value, month, "Exames", examStamp, examRenamed)
  {
    ProcedureResults(ExportFor(Vaccines, vaccineDownload, month, vaccineStamp, vaccineRenamed),
                     ExportFor(Exams, examDownload, month, examStamp, examRenamed))
  }

  /** What `strftime("%Y%m%d_%H%M%S")` writes for a four-digit year: fifteen
      characters, each a digit or the underscore. */
  predicate ClockStamp(t: string)
  {
    |t| == 15 && forall k :: 0 <= k < |t| ==> t[k] == '_' || '0' <= t[k] <= '9'
  }

  /** Joining one directory with names that differ at some index gives
      different paths, when both or neither are absolute. */
  lemma JoinPathDistinct(d: string, a: string, b: string, i: nat)
    requires i < |a| && i < |b| && a[i] != b[i]
    requires a[0] == '/' <==> b[0] == '/'
    ensures JoinPath(d, a) != JoinPath(d, b)
  {
    if a[0] == '/' {
    } else if d == [] || d[|d| - 1] == '/' {
      assert (d + a)[|d| + i] == a[i];
      assert (d + b)[|d| + i] == b[i];
    } else {
      assert (d + "/" + a)[|d| + 1 + i] == a[i];
      assert (d + "/" + b)[|d| + 1 + i] == b[i];
    }
  }

  /** The slugs of the two event names. */
  lemma EventSlugs()
    ensures EventSlug(EventName(Vaccines)) == "vacina"
    ensures EventSlug(EventName(Exams)) == "exames"
  {
    assert LowerStr("Vacina") == "vacina";
    assert LowerStr("Exames") == "exames";
  }

  /** The new name of an export puts the first letter of the event slug
      just after the stamp and its hyphen. */
  lemma NewNameSlugAt(excelPath: string, month: string, k: EventKind, timestamp: string)
    ensures var stamp := if month != "" then month else timestamp;
            var n := NewExportName(excelPath, month, EventName(k), timestamp);
            |stamp| + 1 < |n| && n[|stamp| + 1] == EventSlug(EventName(k))[0] &&
            (stamp != [] ==> n[0] == stamp[0])
  {
    EventSlugs();
  }

  /** Renamed with the same month, or each with its own clock timestamp,
      the vaccine and exam exports of one directory never get the same
      path: the second rename does not replace the first. */
  lemma RenamedExportsDiffer(vaccinePath: string, examPath: string, month: string,
                             vaccineStamp: string, examStamp: string)
    requires Dirname(vaccinePath) == Dirname(examPath)
    requires month == "" ==> ClockStamp(vaccineStamp) && ClockStamp(examStamp)
    ensures RenameExcelFile(vaccinePath, month, EventName(Vaccines), vaccineStamp, true) !=
            RenameExcelFile(examPath, month, EventName(Exams), examStamp, true)
  {
    var a := NewExportName(vaccinePath, month, EventName(Vaccines), vaccineStamp);
    var b := NewExportName(examPath, month, EventName(Exams), examStamp);
    EventSlugs();
    NewNameSlugAt(vaccinePath, month, Vaccines, vaccineStamp);
    NewNameSlugAt(examPath, month, Exams, examStamp);
    var k := if month != "" then |month| + 1 else 16;
    if month == "" {
      assert a[0] != '/' && b[0] != '/';
    }
    JoinPathDistinct(Dirname(vaccinePath), a, b, k);
  }

  /** When both exports are downloaded into one directory and both renames
      succeed, `extract_procedures` reports two different files. */
  lemma ExtractedExportsDiffer(vaccineDownload: string, examDownload: string, month: string,
                               vaccineStamp: string, examStamp: string)
    requires Dirname(vaccineDownload) == Dirname(examDownload)
    requires month == "" ==> ClockStamp(vaccineStamp) && ClockStamp(examStamp)
    ensures var r := ExtractProcedures(Some(vaccineDownload), Some(examDownload), month,
                                       vaccineStamp, examStamp, true, true);
            r.vacinas.Some? && r.exames.Some? && r.vacinas.value != r.exames.value
  {
    RenamedExportsDiffer(vaccineDownload, examDownload, month, vaccineStamp, examStamp);
  }
}
