/** The sales export normaliser (`_filter_and_save_csv` in
    `src/scrapper/venda_extractor.py`): it keeps a fixed list of columns,
    turns the Brazilian-formatted amounts of five of them into numbers, and
    decides where the workbook goes and whether the downloaded CSV is
    removed. The CSV is taken as the columns `read_csv` produces, each cell
    as the text `astype(str)` gives it. */
module SalesCsv {
  import opened TextUtil
  import opened Paths

  /** The columns kept, in the order they are written. */
  const WantedColumns: seq<string> := [
    "Data e hora", "Venda", "Status da venda", "Funcion\U{E1}rio", "Cliente", "Animal",
    "Tipo do Item", "Grupo", "Produto/servi\U{E7}o", "Valor Unit\U{E1}rio", "Quantidade", "Bruto",
    "Desconto", "L\U{ED}quido"]

  /** The columns converted to numbers, in the order the loop visits them. */
  const NumericColumns: seq<string> := ["Valor Unit\U{E1}rio", "Quantidade", "Bruto", "Desconto", "L\U{ED}quido"]

  /** A column of the CSV as read. */
  datatype Column = Column(name: string, cells: seq<string>)

  /** An exact decimal number: `mantissa / 10^scale`. */
  datatype Decimal = Decimal(mantissa: int, scale: nat)

  /** A cell of the sheet written: text, a number, or a missing value
      (`NaN`). */
  datatype Value = Text(text: string) | Number(number: Decimal) | Missing

  datatype SheetColumn = SheetColumn(name: string, values: seq<Value>)

  // ---------------------------------------------------------------------
  // Character filters
  // ---------------------------------------------------------------------

  /** The characters of `s` that pass `keep`, in order. */
  function Filter(s: string, keep: char -> bool): (r: string)
    ensures |r| <= |s|
    ensures forall i :: 0 <= i < |r| ==> keep(r[i])
    decreases |s|
  {
    if s == [] then []
    else Filter(s[..|s| - 1], keep) + (if keep(s[|s| - 1]) then [s[|s| - 1]] else [])
  }

  /** Filtering a concatenation filters each part. */
  lemma {:induction false} FilterAppend(a: string, b: string, keep: char -> bool)
    ensures Filter(a + b, keep) == Filter(a, keep) + Filter(b, keep)
    decreases |b|
  {
    if b == [] {
      assert a + b == a;
    } else {
      var n := |b| - 1;
      FilterAppend(a, b[..n], keep);
      assert (a + b)[..|a| + n] == a + b[..n];
      assert (a + b)[|a| + n] == b[n];
    }
  }

  /** Two filters that agree on every character of `s` keep the same
      characters. */
  lemma {:induction false} FilterAgree(s: string, p: char -> bool, q: char -> bool)
    requires forall i :: 0 <= i < |s| ==> p(s[i]) == q(s[i])
    ensures Filter(s, p) == Filter(s, q)
    decreases |s|
  {
    if s != [] {
      var n := |s| - 1;
      assert forall i :: 0 <= i < n ==> s[..n][i] == s[i];
      FilterAgree(s[..n], p, q);
    }
  }

  /** A filter that every character passes keeps the string whole. */
  lemma {:induction false} FilterKeepsAll(s: string, keep: char -> bool)
    requires forall i :: 0 <= i < |s| ==> keep(s[i])
    ensures Filter(s, keep) == s
    decreases |s|
  {
    if s != [] {
      var n := |s| - 1;
      assert forall i :: 0 <= i < n ==> s[..n][i] == s[i];
      FilterKeepsAll(s[..n], keep);
      assert s[..n] + [s[n]] == s;
    }
  }

  /** A filter keeps as many copies of `c` as there are, when it keeps `c`,
      and none otherwise. */
  lemma {:induction false} FilterCount(s: string, keep: char -> bool, c: char)
    ensures CountChar(Filter(s, keep), c) == if keep(c) then CountChar(s, c) else 0
    decreases |s|
  {
    if s != [] {
      var n := |s| - 1;
      FilterCount(s[..n], keep, c);
      var tail: string := if keep(s[n]) then [s[n]] else [];
      CountCharAppend(Filter(s[..n], keep), tail, c);
      if keep(s[n]) {
        assert tail[..0] == [];
      }
    }
  }

  /** Counting in a concatenation adds the counts. */
  lemma {:induction false} CountCharAppend(a: string, b: string, c: char)
    ensures CountChar(a + b, c) == CountChar(a, c) + CountChar(b, c)
    decreases |b|
  {
    if b == [] {
      assert a + b == a;
    } else {
      var n := |b| - 1;
      CountCharAppend(a, b[..n], c);
      assert (a + b)[..|a| + n] == a + b[..n];
      assert (a + b)[|a| + n] == b[n];
    }
  }

  /** Replacing `a` by `b` turns the count of `b` into the count of both. */
  lemma {:induction false} ReplaceCharCount(s: string, a: char, b: char)
    requires a != b
    ensures CountChar(ReplaceChar(s, a, b), b) == CountChar(s, a) + CountChar(s, b)
    ensures CountChar(ReplaceChar(s, a, b), a) == 0
    decreases |s|
  {
    if s != [] {
      var n := |s| - 1;
      assert ReplaceChar(s, a, b)[..n] == ReplaceChar(s[..n], a, b);
      ReplaceCharCount(s[..n], a, b);
    }
  }

  // ---------------------------------------------------------------------
  // The three-step amount cleanup and the number read from it
  // ---------------------------------------------------------------------

  predicate IsNotPoint(c: char) { c != '.' }

  /** The characters `[0-9.-]`. */
  predicate IsNumericChar(c: char) { IsDigit(c) || c == '.' || c == '-' }

  /** `.str.replace('.', '')`, `.str.replace(',', '.')`, then
      `.str.replace(r'[^0-9.-]', '', regex=True)`. */
  function CleanAmount(s: string): (r: string)
    ensures forall i :: 0 <= i < |r| ==> IsDigit(r[i]) || r[i] == '.' || r[i] == '-'
  {
    Filter(ReplaceChar(Filter(s, IsNotPoint), ',', '.'), IsNumericChar)
  }

  /** The points of the cleaned amount are exactly the commas of the text:
      the thousands points are gone and each decimal comma became a point. */
  lemma CleanAmountPoints(s: string)
    ensures CountChar(CleanAmount(s), '.') == CountChar(s, ',')
  {
    var t := Filter(s, IsNotPoint);
    FilterCount(s, IsNotPoint, '.');
    FilterCount(s, IsNotPoint, ',');
    ReplaceCharCount(t, ',', '.');
    FilterCount(ReplaceChar(t, ',', '.'), IsNumericChar, '.');
  }

  /** The index of the first point, if any. */
  function PointIndex(s: string): (r: Option<nat>)
    ensures r.Some? ==> r.value < |s| && s[r.value] == '.' && forall k :: 0 <= k < r.value ==> s[k] != '.'
    ensures r.None? ==> forall k :: 0 <= k < |s| ==> s[k] != '.'
    decreases |s|
  {
    if s == [] then None
    else if s[0] == '.' then Some(0)
    else match PointIndex(s[1..])
      case None => None
      case Some(k) => Some(k + 1)
  }

  /** A number without sign: digits with at most one point, and at least
      one digit. */
  function UnsignedDecimal(t: string): (r: Option<Decimal>)
    ensures r.Some? ==> r.value.mantissa >= 0 && t != []
  {
    match PointIndex(t)
    case None => if t != [] && AllDigits(t) then Some(Decimal(DigitsValue(t), 0)) else None
    case Some(i) =>
      var whole := t[..i];
      var frac := t[i + 1..];
      if AllDigits(whole) && AllDigits(frac) && |whole| + |frac| > 0 then
        assert AllDigits(whole + frac) by {
          assert forall k :: 0 <= k < |whole + frac| ==>
            (whole + frac)[k] == if k < |whole| then whole[k] else frac[k - |whole|];
        }
        Some(Decimal(DigitsValue(whole + frac), |frac|))
      else None
  }

  /** `pd.to_numeric(..., errors='coerce')` on a cleaned amount: an optional
      minus sign, then a number without sign; anything else is missing. */
  function ParseDecimal(s: string): (r: Option<Decimal>)
    ensures s == [] ==> r.None?
    ensures r.Some? && r.value.mantissa < 0 ==> s[0] == '-'
  {
    if s != [] && s[0] == '-' then
      match UnsignedDecimal(s[1..])
      case None => None
      case Some(d) => Some(Decimal(-d.mantissa, d.scale))
    else UnsignedDecimal(s)
  }

  /** The text after an optional leading minus sign. */
  function Unsigned(s: string): string
  {
    if s != [] && s[0] == '-' then s[1..] else s
  }

  /** The texts `to_numeric` reads once the sign is off: digits and at most
      one point, with at least one digit. */
  predicate IsDecimalText(u: string)
  {
    && (forall i :: 0 <= i < |u| ==> IsDigit(u[i]) || u[i] == '.')
    && (forall i, j :: 0 <= i < j < |u| && u[i] == '.' ==> u[j] != '.')
    && (exists i :: 0 <= i < |u| && IsDigit(u[i]))
  }

  /** The number of characters after the point, 0 without one. */
  function Decimals(u: string): nat
    decreases |u|
  {
    if u == [] then 0 else if u[0] == '.' then |u| - 1 else Decimals(u[1..])
  }

  /** What `ParseDecimal` reads: exactly the texts that are a decimal number
      after an optional minus sign, valued as all their digits, negated
      under the sign and scaled by the number of decimals. */
  lemma ParseDecimalIff(s: string)
    ensures ParseDecimal(s).Some? <==> IsDecimalText(Unsigned(s))
    ensures ParseDecimal(s).Some? ==>
      ParseDecimal(s).value ==
        Decimal((if s[0] == '-' then -1 else 1) * DigitsValue(DigitsOf(Unsigned(s))), Decimals(Unsigned(s)))
  {
    UnsignedDecimalIff(Unsigned(s));
  }

  /** The unsigned half of `ParseDecimalIff`. */
  lemma UnsignedDecimalIff(u: string)
    ensures UnsignedDecimal(u).Some? <==> IsDecimalText(u)
    ensures UnsignedDecimal(u).Some? ==> UnsignedDecimal(u).value == Decimal(DigitsValue(DigitsOf(u)), Decimals(u))
  {
    match PointIndex(u)
    case None =>
      DecimalsWithoutPoint(u);
      if u != [] && AllDigits(u) {
        FilterKeepsAll(u, IsDigit);
        assert IsDigit(u[0]);
      }
    case Some(i) =>
      var whole := u[..i];
      var frac := u[i + 1..];
      assert u == whole + "." + frac;
      PointedIsDecimalText(whole, frac);
      if AllDigits(whole) && AllDigits(frac) {
        PointedDigitsAndDecimals(whole, frac);
      }
  }

  /** Digits, a point and digits form a decimal text exactly when both runs
      are digits and at least one of them is not empty. */
  lemma PointedIsDecimalText(whole: string, frac: string)
    requires forall k :: 0 <= k < |whole| ==> whole[k] != '.'
    ensures IsDecimalText(whole + "." + frac) <==> AllDigits(whole) && AllDigits(frac) && |whole| + |frac| > 0
  {
    var u := whole + "." + frac;
    var i := |whole|;
    assert u[i] == '.';
    assert forall k :: 0 <= k < |whole| ==> u[k] == whole[k];
    assert forall k :: 0 <= k < |frac| ==> u[i + 1 + k] == frac[k];
    if IsDecimalText(u) {
      assert AllDigits(frac) by {
        forall k | 0 <= k < |frac| ensures IsDigit(frac[k]) { assert u[i + 1 + k] != '.'; }
      }
      var d :| 0 <= d < |u| && IsDigit(u[d]);
      assert d != i;
    }
    if AllDigits(whole) && AllDigits(frac) && |whole| + |frac| > 0 {
      assert forall k :: 0 <= k < |u| && k != i ==> IsDigit(u[k]) by {
        forall k | 0 <= k < |u| && k != i ensures IsDigit(u[k]) {
          if k > i { assert u[k] == frac[k - i - 1]; }
        }
      }
      assert IsDigit(u[if |whole| > 0 then 0 else i + 1]);
    }
  }

  /** Digits, a point and digits: the digits are both runs together and the
      decimals are those of the second run. */
  lemma PointedDigitsAndDecimals(whole: string, frac: string)
    requires AllDigits(whole) && AllDigits(frac)
    ensures DigitsOf(whole + "." + frac) == whole + frac
    ensures Decimals(whole + "." + frac) == |frac|
  {
    PointedDigits(whole, frac);
    var u := whole + "." + frac;
    assert u[|whole|] == '.' && |u| == |whole| + 1 + |frac|;
    assert forall k :: 0 <= k < |whole| ==> u[k] != '.' by {
      forall k | 0 <= k < |whole| ensures u[k] != '.' { assert u[k] == whole[k] && IsDigit(whole[k]); }
    }
    DecimalsAtPoint(u, |whole|);
  }

  lemma PointedDigits(whole: string, frac: string)
    requires AllDigits(whole) && AllDigits(frac)
    ensures DigitsOf(whole + "." + frac) == whole + frac
  {
    calc {
      Filter(whole + "." + frac, IsDigit);
      { FilterAppend(whole + ".", frac, IsDigit); }
      Filter(whole + ".", IsDigit) + Filter(frac, IsDigit);
      { FilterAppend(whole, ".", IsDigit); PointHasNoDigits(); }
      Filter(whole, IsDigit) + Filter(frac, IsDigit);
      { FilterKeepsAll(whole, IsDigit); FilterKeepsAll(frac, IsDigit); }
      whole + frac;
    }
  }

  lemma PointHasNoDigits()
    ensures Filter(".", IsDigit) == []
  {
    assert "."[..0] == [];
  }

  /** Without a point there are no decimals. */
  lemma {:induction false} DecimalsWithoutPoint(u: string)
    requires forall k :: 0 <= k < |u| ==> u[k] != '.'
    ensures Decimals(u) == 0
    decreases |u|
  {
    if u != [] {
      assert u[0] != '.';
      DecimalsWithoutPoint(u[1..]);
    }
  }

  /** The decimals are the characters after the first point. */
  lemma {:induction false} DecimalsAtPoint(u: string, i: nat)
    requires i < |u| && u[i] == '.' && forall k :: 0 <= k < i ==> u[k] != '.'
    ensures Decimals(u) == |u| - i - 1
    decreases i
  {
    if i > 0 {
      assert u[0] != '.';
      DecimalsAtPoint(u[1..], i - 1);
    }
  }

  /** A cell of an amount column after conversion: the number read from its
      cleaned text, or missing when nothing can be read. */
  function ToNumber(v: Value): (r: Value)
    ensures r.Number? || r.Missing?
    ensures v.Text? && ParseDecimal(CleanAmount(v.text)).None? ==> r.Missing?
    ensures v.Text? && ParseDecimal(CleanAmount(v.text)).Some? ==> r == Number(ParseDecimal(CleanAmount(v.text)).value)
  {
    match v
    case Text(s) =>
      (match ParseDecimal(CleanAmount(s))
       case None => Missing
       case Some(d) => Number(d))
    // `str()` of a missing value is "nan", which cleans to "" and reads as
    // missing again; a column already converted is never converted twice.
    case Missing => Missing
    case Number(d) => Number(d)
  }

  /** The digits of `s`, in order. */
  function DigitsOf(s: string): string
  {
    Filter(s, IsDigit)
  }

  /** Cleaning the digits-and-points text before a comma leaves its digits. */
  lemma CleanWhole(whole: string)
    requires forall i :: 0 <= i < |whole| ==> IsDigit(whole[i]) || whole[i] == '.'
    ensures Filter(whole, IsNotPoint) == DigitsOf(whole)
  {
    FilterAgree(whole, IsNotPoint, IsDigit);
  }

  /** The first step on an amount with a decimal comma: the thousands
      points go. */
  lemma DropThousandsPoints(whole: string, frac: string)
    requires forall i :: 0 <= i < |whole| ==> IsDigit(whole[i]) || whole[i] == '.'
    requires AllDigits(frac)
    ensures Filter(whole + "," + frac, IsNotPoint) == DigitsOf(whole) + "," + frac
  {
    CleanWhole(whole);
    FilterAppend(whole + ",", frac, IsNotPoint);
    FilterAppend(whole, ",", IsNotPoint);
    FilterKeepsAll(",", IsNotPoint);
    FilterKeepsAll(frac, IsNotPoint);
  }

  /** The second step: the one comma between two runs of digits becomes a
      point. */
  lemma CommaToPoint(d: string, frac: string)
    requires AllDigits(d) && AllDigits(frac)
    ensures ReplaceChar(d + "," + frac, ',', '.') == d + "." + frac
  {
    var t := d + "," + frac;
    assert forall k :: 0 <= k < |t| ==> t[k] == if k < |d| then d[k] else if k == |d| then ',' else frac[k - |d| - 1];
  }

  /** Cleanup of an amount with a decimal comma: the thousands points go,
      the comma becomes a point. */
  lemma CleanBrazilian(whole: string, frac: string)
    requires forall i :: 0 <= i < |whole| ==> IsDigit(whole[i]) || whole[i] == '.'
    requires AllDigits(frac)
    ensures CleanAmount(whole + "," + frac) == DigitsOf(whole) + "." + frac
  {
    var d := DigitsOf(whole);
    DropThousandsPoints(whole, frac);
    CommaToPoint(d, frac);
    FilterKeepsAll(d + "." + frac, IsNumericChar);
  }

  /** Digits, a point and digits read as all the digits scaled by the
      number after the point. */
  lemma ParsePointed(d: string, frac: string)
    requires AllDigits(d) && AllDigits(frac) && |d| + |frac| > 0
    ensures AllDigits(d + frac)
    ensures ParseDecimal(d + "." + frac) == Some(Decimal(DigitsValue(d + frac), |frac|))
  {
    var s := d + "." + frac;
    assert s[0] != '-';
    assert PointIndex(s) == Some(|d|) by {
      assert s[|d|] == '.';
      assert forall k :: 0 <= k < |d| ==> s[k] == d[k];
    }
    assert s[..|d|] == d && s[|d| + 1..] == frac;
  }

  /** A Brazilian amount: digits grouped by thousands points, a decimal
      comma, and digits. Cleanup leaves the digits before the comma, a point
      and the digits after it, and the number read is all those digits
      scaled by the number of decimals: "1.500,00" reads as 1500.00. */
  lemma BrazilianAmount(whole: string, frac: string)
    requires forall i :: 0 <= i < |whole| ==> IsDigit(whole[i]) || whole[i] == '.'
    requires AllDigits(frac) && |DigitsOf(whole)| + |frac| > 0
    ensures AllDigits(DigitsOf(whole) + frac)
    ensures ParseDecimal(CleanAmount(whole + "," + frac)) ==
      Some(Decimal(DigitsValue(DigitsOf(whole) + frac), |frac|))
  {
    CleanBrazilian(whole, frac);
    ParsePointed(DigitsOf(whole), frac);
  }

  lemma DigitsOfExample()
    ensures DigitsOf("1.500") == "1500"
  {
    assert "1.500" == "1" + "." + "500";
    FilterAppend("1" + ".", "500", IsDigit);
    FilterAppend("1", ".", IsDigit);
    FilterKeepsAll("1", IsDigit);
    FilterKeepsAll("500", IsDigit);
    assert "."[..0] == [];
  }

  lemma DigitsValueExample()
    ensures AllDigits("150000") && DigitsValue("150000") == 150000
  {
    assert NatToString(1) == "1";
    assert NatToString(15) == "15";
    assert NatToString(150) == "150";
    assert NatToString(1500) == "1500";
    assert NatToString(15000) == "15000";
    assert NatToString(150000) == "150000";
  }

  /** The example of the amount cleanup: "1.500,00" becomes 1500.00. */
  lemma ThousandsAndDecimals()
    ensures ParseDecimal(CleanAmount("1.500,00")) == Some(Decimal(150000, 2))
  {
    DigitsOfExample();
    BrazilianAmount("1.500", "00");
    assert "1.500" + "," + "00" == "1.500,00";
    assert DigitsOf("1.500") + "00" == "150000";
    DigitsValueExample();
  }

  /** An empty cell cleans to "" and reads as missing, never as 0. */
  lemma EmptyCellIsMissing()
    ensures ToNumber(Text("")) == Missing
  {
    assert CleanAmount("") == "" by {
      assert Filter("", IsNotPoint) == "";
      assert ReplaceChar("", ',', '.') == "";
    }
  }

  // ---------------------------------------------------------------------
  // Column projection and conversion
  // ---------------------------------------------------------------------

  function Names(columns: seq<Column>): (r: seq<string>)
    ensures |r| == |columns| && forall k :: 0 <= k < |columns| ==> r[k] == columns[k].name
  {
    seq(|columns|, k requires 0 <= k < |columns| => columns[k].name)
  }

  /** The wanted names present in the input, in the wanted order:
      `[col for col in columns if col in df.columns]`. */
  function Selected(wanted: seq<string>, present: seq<string>): (r: seq<string>)
    ensures forall x :: x in r <==> x in wanted && x in present
    ensures |r| <= |wanted|
    decreases |wanted|
  {
    if wanted == [] then []
    else
      var n := |wanted| - 1;
      Selected(wanted[..n], present) + (if wanted[n] in present then [wanted[n]] else [])
  }

  predicate Distinct(xs: seq<string>)
  {
    forall i, j :: 0 <= i < j < |xs| ==> xs[i] != xs[j]
  }

  /** Where `x` first appears in `xs`. */
  function IndexOf(xs: seq<string>, x: string): (k: nat)
    requires x in xs
    ensures k < |xs| && xs[k] == x && forall j :: 0 <= j < k ==> xs[j] != x
    decreases |xs|
  {
    if xs[0] == x then 0 else IndexOf(xs[1..], x) + 1
  }

  /** A name in a prefix is first found within the prefix. */
  lemma IndexOfInPrefix(xs: seq<string>, n: nat, x: string)
    requires n <= |xs| && x in xs[..n]
    ensures IndexOf(xs, x) == IndexOf(xs[..n], x) < n
  {
    var k := IndexOf(xs[..n], x);
    assert xs[k] == x;
    var m := IndexOf(xs, x);
    assert m <= k;
    assert xs[..n][m] == x;
  }

  /** The selected names keep the order of the wanted list. */
  lemma {:induction false} SelectedInWantedOrder(wanted: seq<string>, present: seq<string>)
    requires Distinct(wanted)
    ensures forall i, j :: 0 <= i < j < |Selected(wanted, present)| ==>
      IndexOf(wanted, Selected(wanted, present)[i]) < IndexOf(wanted, Selected(wanted, present)[j])
    decreases |wanted|
  {
    if wanted != [] {
      var n := |wanted| - 1;
      var init := wanted[..n];
      var prev := Selected(init, present);
      var r := Selected(wanted, present);
      SelectedInWantedOrder(init, present);
      assert IndexOf(wanted, wanted[n]) == n;
      forall i, j | 0 <= i < j < |r|
        ensures IndexOf(wanted, r[i]) < IndexOf(wanted, r[j])
      {
        assert r[i] == prev[i] && prev[i] in init;
        IndexOfInPrefix(wanted, n, prev[i]);
        if j < |prev| {
          assert r[j] == prev[j] && prev[j] in init;
          IndexOfInPrefix(wanted, n, prev[j]);
          assert IndexOf(init, prev[i]) < IndexOf(init, prev[j]);
        } else {
          assert r[j] == wanted[n];
          assert IndexOf(wanted, r[i]) < n;
        }
      }
    }
  }

  /** The first input column with the given name. */
  function ColumnNamed(columns: seq<Column>, name: string): (c: Column)
    requires name in Names(columns)
    ensures c in columns && c.name == name
  {
    columns[IndexOf(Names(columns), name)]
  }

  /** `df[[col for col in columns if col in df.columns]]`: the wanted columns
      present, in the wanted order, with their cells as text. */
  function Project(columns: seq<Column>): (r: seq<SheetColumn>)
    ensures |r| == |Selected(WantedColumns, Names(columns))|
    ensures forall k :: 0 <= k < |r| ==>
      var name := Selected(WantedColumns, Names(columns))[k];
      r[k].name == name && |r[k].values| == |ColumnNamed(columns, name).cells| &&
      forall i :: 0 <= i < |r[k].values| ==> r[k].values[i] == Text(ColumnNamed(columns, name).cells[i])
  {
    var names := Selected(WantedColumns, Names(columns));
    seq(|names|, k requires 0 <= k < |names| =>
      var c := ColumnNamed(columns, names[k]);
      SheetColumn(c.name, seq(|c.cells|, i requires 0 <= i < |c.cells| => Text(c.cells[i]))))
  }

  /** One amount column converted, cell by cell. */
  function ConvertColumn(c: SheetColumn): (r: SheetColumn)
    ensures r.name == c.name && |r.values| == |c.values|
    ensures forall i :: 0 <= i < |r.values| ==> r.values[i] == ToNumber(c.values[i])
  {
    SheetColumn(c.name, seq(|c.values|, i requires 0 <= i < |c.values| => ToNumber(c.values[i])))
  }

  /** The sheet after the conversion loop: the amount columns converted,
      every other column as it was. */
  function Converted(columns: seq<SheetColumn>): (r: seq<SheetColumn>)
    ensures |r| == |columns|
    ensures forall k :: 0 <= k < |r| ==> r[k].name == columns[k].name
    ensures forall k :: 0 <= k < |r| && columns[k].name !in NumericColumns ==> r[k] == columns[k]
    ensures forall k, i :: 0 <= k < |r| && columns[k].name in NumericColumns && 0 <= i < |r[k].values| ==>
      r[k].values[i].Number? || r[k].values[i].Missing?
  {
    seq(|columns|, k requires 0 <= k < |columns| =>
      if columns[k].name in NumericColumns then ConvertColumn(columns[k]) else columns[k])
  }

  lemma NumericColumnsDistinct()
    ensures Distinct(NumericColumns)
  {
  }

  /** The loop over the amount columns: each one present is replaced by its
      conversion. */
  method ConvertNumericColumns(columns: seq<SheetColumn>) returns (result: seq<SheetColumn>)
    ensures result == Converted(columns)
  {
    NumericColumnsDistinct();
    result := columns;
    var j := 0;
    while j < |NumericColumns|
      invariant 0 <= j <= |NumericColumns| && |result| == |columns|
      invariant forall k :: 0 <= k < |columns| ==>
        result[k] == if columns[k].name in NumericColumns[..j] then ConvertColumn(columns[k]) else columns[k]
    {
      var col := NumericColumns[j];
      assert forall k :: 0 <= k < |columns| ==>
        (columns[k].name in NumericColumns[..j + 1] <==> columns[k].name in NumericColumns[..j] || columns[k].name == col);
      result := seq(|result|, k requires 0 <= k < |result| =>
        if result[k].name == col then ConvertColumn(result[k]) else result[k]);
      j := j + 1;
    }
    assert NumericColumns[..j] == NumericColumns;
  }

  // ---------------------------------------------------------------------
  // Paths
  // ---------------------------------------------------------------------

  /** Where the sales workbook is written: `{month}-vendas.xlsx` beside the
      CSV when a month is given, else the CSV path with every ".csv"
      replaced by ".xlsx". */
  function SalesExcelPath(csvPath: string, month: string): string
  {
    if month != "" then JoinPath(Dirname(csvPath), month + "-vendas.xlsx")
    else ReplaceAll(csvPath, ".csv", ".xlsx")
  }

  /** The CSV is removed only when its file name, in lower case, is
      "vendas.csv". */
  predicate RemovesCsv(csvPath: string)
  {
    LowerStr(Basename(csvPath)) == "vendas.csv"
  }

  /** A CSV at `dir/name`: the workbook with a month goes to
      `dir/{month}-vendas.xlsx`, and the CSV is removed exactly when `name`
      is "vendas.csv" in any case. */
  lemma SalesPathsInDirectory(dir: string, name: string, month: string)
    requires dir != [] && dir[|dir| - 1] != '/'
    requires forall k :: 0 <= k < |name| ==> name[k] != '/'
    requires month != [] && month[0] != '/'
    ensures SalesExcelPath(dir + "/" + name, month) == dir + "/" + month + "-vendas.xlsx"
    ensures RemovesCsv(dir + "/" + name) <==> LowerStr(name) == "vendas.csv"
  {
    PathParts(dir, name);
    assert (month + "-vendas.xlsx")[0] == month[0];
  }

  /** "Vendas.CSV" holds no lower-case ".csv". */
  lemma NoLowerCsv()
    ensures forall i :: 0 <= i <= |"Vendas.CSV"| ==> !OccursAt("Vendas.CSV", ".csv", i)
  {
    var p := "Vendas.CSV";
    forall i | 0 <= i <= |p| ensures !OccursAt(p, ".csv", i) {
      if i + 4 <= |p| {
        assert p[i..i + 4][1] == p[i + 1];
      }
    }
  }

  /** Without a month, a CSV named "Vendas.CSV" keeps its path for the
      workbook: ".csv" is replaced case-sensitively and there is no
      lower-case ".csv" to replace. The name test for removal lower-cases the
      name, so it would pass; the removal happens only if the write to that
      path succeeded. */
  lemma UpperCaseExtensionKeepsPath()
    ensures SalesExcelPath("Vendas.CSV", "") == "Vendas.CSV"
    ensures RemovesCsv("Vendas.CSV")
  {
    NoLowerCsv();
    ReplaceAbsent("Vendas.CSV", ".csv", ".xlsx");
    VendasBasename();
    LowerVendas();
  }

  lemma VendasBasename()
    ensures Basename("Vendas.CSV") == "Vendas.CSV"
  {
    var p := "Vendas.CSV";
    assert AfterLastSlash(p) == 0 by {
      AfterLastSlashOfSuffix("/", p);
      assert forall k :: 0 <= k < |p| ==> p[k] != '/';
      NoSlashStart(p);
    }
  }

  lemma LowerVendas()
    ensures LowerStr("Vendas.CSV") == "vendas.csv"
  {
    var p := "Vendas.CSV";
    assert forall k :: 0 <= k < |p| ==> LowerStr(p)[k] == Lower(p[k]);
  }

  /** The result: where the workbook goes, the sheet written, and whether
      the CSV is removed afterwards. */
  datatype SalesOutput = SalesOutput(excelPath: string, sheet: seq<SheetColumn>, removesCsv: bool)

  /** The normaliser: project, convert the amount columns, and name the
      outputs. `writeSucceeds` is the outcome of `to_excel`, which is not
      guarded: when it raises, the normaliser raises too (None here), and the
      CSV is never removed. */
  method FilterAndSaveCsv(columns: seq<Column>, csvPath: string, month: string, writeSucceeds: bool)
    returns (out: Option<SalesOutput>)
    ensures out.Some? <==> writeSucceeds
    ensures out.Some? ==> out.value.excelPath == SalesExcelPath(csvPath, month)
    ensures out.Some? ==> out.value.sheet == Converted(Project(columns))
    ensures out.Some? ==> (out.value.removesCsv <==> RemovesCsv(csvPath))
  {
    var projected := Project(columns);
    var sheet := ConvertNumericColumns(projected);
    var excelPath := if month != "" then JoinPath(Dirname(csvPath), month + "-vendas.xlsx")
                     else ReplaceAll(csvPath, ".csv", ".xlsx");
    if !writeSucceeds {
      return None;
    }
    var baseCsv := LowerStr(Basename(csvPath));
    out := Some(SalesOutput(excelPath, sheet, baseCsv == "vendas.csv"));
  }
}
