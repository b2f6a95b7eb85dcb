/** The settings reader of the scraper (`src/scrapper/config.py`): lookups
    in the loaded configuration, the credential checks against the
    template's placeholder values, the list of months, and the month-to-
    date-range conversion. The configuration is the JSON document the
    constructor loads, taken as a value; it never changes afterwards. */
module Settings {
  import opened TextUtil
  import opened Calendar

  /** A JSON value as `json.load` returns it (numbers taken as integers). */
  datatype Json =
    | Null
    | Bool(b: bool)
    | Number(n: int)
    | Str(s: string)
    | Array(items: seq<Json>)
    | Object(fields: map<string, Json>)

  /** Python's truth test on a loaded value. */
  predicate Truthy(j: Json)
  {
    match j
    case Null => false
    case Bool(b) => b
    case Number(n) => n != 0
    case Str(s) => s != ""
    case Array(xs) => xs != []
    case Object(f) => f != map[]
  }

  /** The exceptions the lookups can raise. */
  datatype Error = KeyError | TypeError | AttributeError

  datatype Result<T> = Ok(value: T) | Err(error: Error)

  // ---------------------------------------------------------------------
  // get_config
  // ---------------------------------------------------------------------

  /** `get_config(section, key)`: the whole section when no key is given,
      otherwise the key's value. KeyError for a missing section or key. A
      section that is not an object makes the key test itself behave as
      Python's `in` does on it: a substring test on a string, an element
      test on a list, TypeError on a number, a boolean or null; when that
      test succeeds, indexing with a string key raises TypeError. */
  function GetConfig(data: map<string, Json>, section: string, key: Option<string>): (r: Result<Json>)
    ensures section !in data ==> r == Err(KeyError)
    ensures section in data && key.None? ==> r == Ok(data[section])
    ensures section in data && key.Some? ==>
      (r.Ok? <==> data[section].Object? && key.value in data[section].fields)
    ensures section in data && key.Some? && r.Ok? ==> r.value == data[section].fields[key.value]
    ensures section in data && key.Some? && data[section].Object? && r.Err? ==> r.error == KeyError
  {
    if section !in data then Err(KeyError)
    else match key
      case None => Ok(data[section])
      case Some(k) =>
        match data[section]
        case Object(f) => if k in f then Ok(f[k]) else Err(KeyError)
        case Str(s) => if Contains(s, k) then Err(TypeError) else Err(KeyError)
        case Array(xs) => if Str(k) in xs then Err(TypeError) else Err(KeyError)
        case _ => Err(TypeError)
  }

  /** Asking for a key is asking for the section and looking the key up in
      it, whenever either succeeds. */
  lemma GetConfigKeyOfSection(data: map<string, Json>, section: string, key: string)
    ensures GetConfig(data, section, Some(key)).Ok? <==>
      GetConfig(data, section, None).Ok? && GetConfig(data, section, None).value.Object? &&
      key in GetConfig(data, section, None).value.fields
    ensures GetConfig(data, section, Some(key)).Ok? ==>
      GetConfig(data, section, Some(key)).value == GetConfig(data, section, None).value.fields[key]
  {
  }

  // ---------------------------------------------------------------------
  // Credentials
  // ---------------------------------------------------------------------

  /** The value stored under `credentials.<credential>` of a section, when
      the section and the credentials are objects holding it. */
  function Stored(data: map<string, Json>, section: string, credential: string): Option<Json>
  {
    if section in data && data[section].Object? && "credentials" in data[section].fields
       && data[section].fields["credentials"].Object?
       && credential in data[section].fields["credentials"].fields
    then Some(data[section].fields["credentials"].fields[credential])
    else None
  }

  /** The template's placeholder for a credential: `SEU_<CREDENTIAL>_AQUI`. */
  function Placeholder(credential: string): (p: string)
    ensures |p| == |credential| + 9
  {
    "SEU_" + UpperStr(credential) + "_AQUI"
  }

  /** A stored value that is a non-empty string whose upper case is none of
      the given placeholders. */
  predicate FilledIn(j: Option<Json>, placeholders: set<string>)
  {
    j.Some? && j.value.Str? && j.value.s != "" && UpperStr(j.value.s) !in placeholders
  }

  /** `get_credential`: the stored string when it is filled in; None when it
      is missing, empty, the placeholder, or when the section or its
      credentials are missing. A truthy stored value that is not a string,
      or credentials that are not an object, raise AttributeError; a
      section that is not an object can raise TypeError. */
  function GetCredential(data: map<string, Json>, section: string, credential: string): (r: Result<Option<string>>)
    ensures r.Ok? && r.value.Some? <==> FilledIn(Stored(data, section, credential), {Placeholder(credential)})
    ensures r.Ok? && r.value.Some? ==> Stored(data, section, credential) == Some(Str(r.value.value))
    ensures Stored(data, section, credential).Some? && !Truthy(Stored(data, section, credential).value) ==>
      r == Ok(None)
    ensures section !in data ==> r == Ok(None)
  {
    match GetConfig(data, section, Some("credentials"))
    case Err(KeyError) => Ok(None)
    case Err(e) => Err(e)
    case Ok(credentials) =>
      match credentials
      case Object(f) =>
        var value := if credential in f then f[credential] else Null;
        if !Truthy(value) then Ok(None)
        else if value.Str? then
          if UpperStr(value.s) != Placeholder(credential) then Ok(Some(value.s)) else Ok(None)
        else Err(AttributeError)
      case _ => Err(AttributeError)
  }

  const EmailPlaceholders: set<string> := {"SEU_EMAIL_AQUI"}
  const PasswordPlaceholders: set<string> := {"SEU_PASSWORD_AQUI", "SUA_SENHA_AQUI"}

  /** `validate_credentials`: both credentials read, then the template's
      e-mail and password placeholders refused. */
  function ValidateCredentials(data: map<string, Json>, section: string): Result<bool>
  {
    match GetCredential(data, section, "email")
    case Err(e) => Err(e)
    case Ok(email) =>
      match GetCredential(data, section, "password")
      case Err(e) => Err(e)
      case Ok(password) =>
        if email.None? || password.None? then Ok(false)
        else Ok(!(UpperStr(email.value) == "SEU_EMAIL_AQUI" || UpperStr(password.value) == "SUA_SENHA_AQUI"))
  }

  lemma PlaceholdersOfCredentials()
    ensures Placeholder("email") == "SEU_EMAIL_AQUI"
    ensures Placeholder("password") == "SEU_PASSWORD_AQUI"
  {
  }

  /** The credentials are valid exactly when both are stored as non-empty
      strings, the e-mail is not its placeholder and the password is
      neither `get_credential`'s placeholder nor the template's. The
      second e-mail check of `validate_credentials` can never fire, since
      `get_credential` already refuses that value. */
  lemma ValidateCredentialsIff(data: map<string, Json>, section: string)
    ensures ValidateCredentials(data, section) == Ok(true) <==>
      FilledIn(Stored(data, section, "email"), EmailPlaceholders) &&
      FilledIn(Stored(data, section, "password"), PasswordPlaceholders)
  {
    PlaceholdersOfCredentials();
  }

  /** A configuration without the section, or whose section has no
      credentials, is refused without an error. */
  lemma NoCredentialsRefused(data: map<string, Json>, section: string)
    requires section !in data || (data[section].Object? && "credentials" !in data[section].fields)
    ensures ValidateCredentials(data, section) == Ok(false)
  {
  }

  /** The template as shipped, with its placeholders filled in any case,
      does not validate. */
  lemma TemplateRefused(data: map<string, Json>, section: string, email: string, password: string)
    requires section in data
    requires data[section] == Object(map["credentials" := Object(map["email" := Str(email), "password" := Str(password)])])
    requires UpperStr(password) == "SUA_SENHA_AQUI"
    ensures ValidateCredentials(data, section) == Ok(false)
  {
    ValidateCredentialsIff(data, section);
    assert Stored(data, section, "password") == Some(Str(password));
  }

  // ---------------------------------------------------------------------
  // Months
  // ---------------------------------------------------------------------

  /** `get_months`: the configured list as it is, or [] when the section or
      the key is missing or the value is not a list. */
  function GetMonths(data: map<string, Json>, section: string): (r: Result<seq<Json>>)
    ensures section !in data ==> r == Ok([])
    ensures r.Ok? && r.value != [] ==>
      data[section].Object? && "months" in data[section].fields &&
      data[section].fields["months"] == Array(r.value)
    ensures section in data && data[section].Object? && "months" in data[section].fields ==>
      data[section].fields["months"].Array? ==> r == Ok(data[section].fields["months"].items)
    ensures section in data && data[section].Object? ==> r.Ok?
  {
    match GetConfig(data, section, Some("months"))
    case Err(KeyError) => Ok([])
    case Err(e) => Err(e)
    case Ok(months) => if months.Array? then Ok(months.items) else Ok([])
  }

  // ---------------------------------------------------------------------
  // A month as a date range
  // ---------------------------------------------------------------------

  /** `get_date_range_from_month`: "YYYYMM" to the first and the last day
      of that month as YYYY-MM-DD; None where it raises ValueError (not
      six ASCII digits, or a month outside 1 to 12). */
  function DateRangeFromMonth(s: string): (r: Option<(string, string)>)
    ensures r.Some? <==> |s| == 6 && AllDigits(s) && 1 <= DigitsValue(s[4..]) <= 12
    ensures r.Some? ==> r.value.0 == s[..4] + "-" + s[4..] + "-01"
    ensures r.Some? ==>
      var days := DaysInMonth(DigitsValue(s[..4]), DigitsValue(s[4..]));
      r.value.1 == s[..4] + "-" + s[4..] + "-" + TwoDigits(days)
  {
    if |s| != 6 || !AllDigits(s) then None
    else
      var year := DigitsValue(s[..4]);
      var month := DigitsValue(s[4..]);
      if month < 1 || month > 12 then None
      else
        FourDigitsOf(s[..4]);
        TwoDigitsOf(s[4..]);
        var start := FourDigits(year) + "-" + TwoDigits(month) + "-01";
        var end := FourDigits(year) + "-" + TwoDigits(month) + "-" + TwoDigits(DaysInMonth(year, month));
        Some((start, end))
  }

  /** The value of a two-digit numeral. */
  lemma TwoDigitValue(t: string)
    requires |t| == 2 && AllDigits(t)
    ensures DigitsValue(t) == 10 * DigitValue(t[0]) + DigitValue(t[1])
  {
    assert t[..1][..0] == [];
    assert DigitsValue(t[..1]) == DigitValue(t[0]);
  }

  /** The value of a four-digit numeral. */
  lemma FourDigitValue(t: string)
    requires |t| == 4 && AllDigits(t)
    ensures DigitsValue(t) == 1000 * DigitValue(t[0]) + 100 * DigitValue(t[1]) + 10 * DigitValue(t[2]) + DigitValue(t[3])
  {
    assert t[..3][..2] == t[..2];
    assert t[..3][2] == t[2];
    TwoDigitValue(t[..2]);
  }

  /** `{n:02d}` of the value of two digits gives the digits back. */
  lemma TwoDigitsOf(t: string)
    requires |t| == 2 && AllDigits(t)
    ensures DigitsValue(t) < 100 && TwoDigits(DigitsValue(t)) == t
  {
    TwoDigitValue(t);
  }

  /** Two digit strings of four digits with the same value are the same. */
  lemma SameFourDigits(r: string, t: string)
    requires |r| == 4 && AllDigits(r) && |t| == 4 && AllDigits(t)
    requires 1000 * DigitValue(r[0]) + 100 * DigitValue(r[1]) + 10 * DigitValue(r[2]) + DigitValue(r[3]) ==
             1000 * DigitValue(t[0]) + 100 * DigitValue(t[1]) + 10 * DigitValue(t[2]) + DigitValue(t[3])
    ensures r == t
  {
    assert DigitValue(r[0]) == DigitValue(t[0]);
    assert DigitValue(r[1]) == DigitValue(t[1]);
    assert DigitValue(r[2]) == DigitValue(t[2]);
    assert DigitChar(DigitValue(r[0])) == r[0] && DigitChar(DigitValue(t[0])) == t[0];
    assert DigitChar(DigitValue(r[1])) == r[1] && DigitChar(DigitValue(t[1])) == t[1];
    assert DigitChar(DigitValue(r[2])) == r[2] && DigitChar(DigitValue(t[2])) == t[2];
    assert DigitChar(DigitValue(r[3])) == r[3] && DigitChar(DigitValue(t[3])) == t[3];
  }

  /** `{n:04d}` of the value of four digits gives the digits back. */
  lemma FourDigitsOf(t: string)
    requires |t| == 4 && AllDigits(t)
    ensures DigitsValue(t) < 10000 && FourDigits(DigitsValue(t)) == t
  {
    FourDigitValue(t);
    SameFourDigits(FourDigits(DigitsValue(t)), t);
  }

  /** The two ends of a month's range are dates `strptime(_, '%Y-%m-%d')`
      reads back as the first and the last day of that month; the day
      after the end is not in the month. */
  lemma DateRangeIsWholeMonth(s: string)
    requires DateRangeFromMonth(s).Some?
    requires DigitsValue(s[..4]) >= 1
    ensures var y := DigitsValue(s[..4]);
      var m := DigitsValue(s[4..]);
      && ParseYmd(DateRangeFromMonth(s).value.0) == Some(Date(y, m, 1))
      && ParseYmd(DateRangeFromMonth(s).value.1) == Some(Date(y, m, DaysInMonth(y, m)))
      && !IsValid(Date(y, m, DaysInMonth(y, m) + 1))
  {
    var y := DigitsValue(s[..4]);
    var m := DigitsValue(s[4..]);
    FourDigitsOf(s[..4]);
    TwoDigitsOf(s[4..]);
    var first := Date(y, m, 1);
    var last := Date(y, m, DaysInMonth(y, m));
    assert FormatYmd(first) == DateRangeFromMonth(s).value.0;
    assert FormatYmd(last) == DateRangeFromMonth(s).value.1;
    YmdRoundTrip(first);
    YmdRoundTrip(last);
  }

  /** February follows the Gregorian leap-year rule. */
  lemma LeapFebruaryRange()
    ensures DateRangeFromMonth("202402") == Some(("2024-02-01", "2024-02-29"))
  {
    var a := "202402";
    assert a[..4] == "2024" && a[4..] == "02";
    FourDigitValue("2024");
    TwoDigitValue("02");
    assert AllDigits(a);
    assert DigitsValue(a[..4]) == 2024 && DigitsValue(a[4..]) == 2;
    assert DaysInMonth(2024, 2) == 29;
    assert TwoDigits(29) == "29";
    assert DateRangeFromMonth(a).value.0 == "2024-02-01";
    assert DateRangeFromMonth(a).value.1 == "2024-02-29";
  }

  /** A century year not divisible by 400 is not a leap year. */
  lemma CenturyFebruaryRange()
    ensures DateRangeFromMonth("190002") == Some(("1900-02-01", "1900-02-28"))
  {
    var b := "190002";
    assert b[..4] == "1900" && b[4..] == "02";
    FourDigitValue("1900");
    TwoDigitValue("02");
    assert AllDigits(b);
    assert DigitsValue(b[..4]) == 1900 && DigitsValue(b[4..]) == 2;
    assert DaysInMonth(1900, 2) == 28;
    assert TwoDigits(28) == "28";
    assert DateRangeFromMonth(b).value.0 == "1900-02-01";
    assert DateRangeFromMonth(b).value.1 == "1900-02-28";
  }

  /** Months outside 1 to 12 and inputs that are not six digits are
      refused. */
  lemma BadMonthsRefused()
    ensures DateRangeFromMonth("202513") == None
    ensures DateRangeFromMonth("202500") == None
    ensures DateRangeFromMonth("20259") == None
    ensures DateRangeFromMonth("2025-9") == None
  {
    var c := "202513";
    assert c[4..] == "13";
    TwoDigitValue("13");
    var d := "202500";
    assert d[4..] == "00";
    TwoDigitValue("00");
    assert !IsDigit("2025-9"[4]);
  }
}
