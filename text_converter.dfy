/** The text-based PDF converter (`src/pdf_converter.py`, the one the
    appointment extractor uses). It ignores tables: it normalises the free
    text of each page, looks for a date in a window of lines, and fills the
    other fields from "Label: value" patterns and keyword lists. */
module TextConverter {
  import opened TextUtil
  import opened PdfPages
  import opened SeqUtil
  import Workbook

  /** One record, with the page text it was read from (cut at 200
      characters). */
  datatype TextAppointment = TextAppointment(
    veterinaria: string, cliente: string, animal: string, tipoAtendimento: string,
    data: string, hora: string, status: string, textoOriginal: string)

  // ---------------------------------------------------------------------
  // Whitespace normalisation: re.sub(r'\n+', '\n') then re.sub(r'\s+', ' ')
  // ---------------------------------------------------------------------

  /** The characters of `s` other than newlines, in order. */
  function NonNewline(s: string): string
    decreases |s|
  {
    if s == [] then [] else (if s[0] == '\n' then [] else [s[0]]) + NonNewline(s[1..])
  }

  /** The characters of `s` other than whitespace, in order. */
  function NonSpace(s: string): string
    decreases |s|
  {
    if s == [] then [] else (if IsSpace(s[0]) then [] else [s[0]]) + NonSpace(s[1..])
  }

  predicate IsNewline(c: char) { c == '\n' }

  /** The maximal runs of `s` free of separators, in order: for whitespace
      what `str.split()` gives, for newlines the non-empty pieces of
      `split('\n')`. */
  function Pieces(s: string, isSep: char -> bool): (ps: seq<string>)
    ensures s != [] && !isSep(s[0]) ==> ps != []
    ensures forall k :: 0 <= k < |ps| ==> ps[k] != []
    ensures forall k, i :: 0 <= k < |ps| && 0 <= i < |ps[k]| ==> !isSep(ps[k][i])
    decreases |s|
  {
    if s == [] then []
    else
      var rest := Pieces(s[1..], isSep);
      if isSep(s[0]) then rest
      else if |s| > 1 && !isSep(s[1]) then
        assert forall i :: 1 <= i < |rest[0]| + 1 ==> ([s[0]] + rest[0])[i] == rest[0][i - 1];
        [[s[0]] + rest[0]] + rest[1..]
      else [[s[0]]] + rest
  }

  /** Separators in front add no piece. */
  lemma {:induction false} PiecesDropSeparators(x: string, k: nat, isSep: char -> bool)
    requires k <= |x| && forall i :: 0 <= i < k ==> isSep(x[i])
    ensures Pieces(x[k..], isSep) == Pieces(x, isSep)
    decreases k
  {
    if k > 0 {
      assert x[1..][k - 1..] == x[k..];
      PiecesDropSeparators(x[1..], k - 1, isSep);
    }
  }

  /** One separator in front adds no piece. */
  lemma PiecesSeparatorCons(c: char, x: string, isSep: char -> bool)
    requires isSep(c)
    ensures Pieces([c] + x, isSep) == Pieces(x, isSep)
  {
    assert ([c] + x)[1..] == x;
  }

  /** A character other than a separator in front joins the first piece
      when the text goes on with one, and starts a piece of its own
      otherwise: so two texts with the same pieces and the same kind of
      first character keep the same pieces under it. */
  lemma PiecesNonSeparatorCons(c: char, x: string, y: string, isSep: char -> bool)
    requires !isSep(c) && Pieces(x, isSep) == Pieces(y, isSep)
    requires (x != [] && !isSep(x[0])) <==> (y != [] && !isSep(y[0]))
    ensures Pieces([c] + x, isSep) == Pieces([c] + y, isSep)
  {
    assert ([c] + x)[1..] == x && ([c] + y)[1..] == y;
  }

  /** `s` without its leading newlines: what is dropped is all newlines and
      what is kept does not start with one. */
  function DropNewlines(s: string): (r: string)
    ensures |r| <= |s| && (r == [] || r[0] != '\n')
    ensures r == s[|s| - |r|..]
    ensures forall k :: 0 <= k < |s| - |r| ==> s[k] == '\n'
    ensures NonNewline(r) == NonNewline(s)
    decreases |s|
  {
    if s != [] && s[0] == '\n' then DropNewlines(s[1..]) else s
  }

  /** No newline directly follows another. */
  predicate NoDoubleNewline(r: string)
  {
    forall i :: 0 <= i < |r| - 1 ==> !(r[i] == '\n' && r[i + 1] == '\n')
  }

  /** A character put in front keeps newlines single unless it is a newline
      followed by one. */
  lemma ConsNoDoubleNewline(c: char, r: string)
    requires NoDoubleNewline(r) && (c != '\n' || r == [] || r[0] != '\n')
    ensures NoDoubleNewline([c] + r)
  {
    var t := [c] + r;
    forall i | 0 <= i < |t| - 1
      ensures !(t[i] == '\n' && t[i + 1] == '\n')
    {
      if i > 0 {
        assert t[i] == r[i - 1] && t[i + 1] == r[i];
      }
    }
  }

  /** Every run of newlines replaced by one newline. */
  function SqueezeNewlines(s: string): (r: string)
    ensures |r| <= |s| && (s != [] ==> r != [] && r[0] == s[0])
    ensures NoDoubleNewline(r)
    ensures forall i :: 0 <= i < |r| && r[i] != '\n' ==> r[i] in s
    ensures NonNewline(r) == NonNewline(s)
    decreases |s|
  {
    if s == [] then []
    else if s[0] == '\n' then
      var rest := DropNewlines(s[1..]);
      assert forall c :: c in rest ==> c in s;
      var squeezed := SqueezeNewlines(rest);
      ConsNoDoubleNewline('\n', squeezed);
      "\n" + squeezed
    else
      var squeezed := SqueezeNewlines(s[1..]);
      ConsNoDoubleNewline(s[0], squeezed);
      [s[0]] + squeezed
  }

  /** Squeezing keeps the lines: the text between newline runs is the same,
      in the same order. With the first character kept, the last one kept
      (`SqueezeNewlinesKeepsEnd`) and no double newline, this fixes the
      result: each run of newlines became exactly one. */
  lemma {:induction false} SqueezeNewlinesKeepsLines(s: string)
    ensures Pieces(SqueezeNewlines(s), IsNewline) == Pieces(s, IsNewline)
    decreases |s|
  {
    if s != [] {
      var x := s[1..];
      assert [s[0]] + x == s;
      if s[0] == '\n' {
        var rest := DropNewlines(x);
        var squeezed := SqueezeNewlines(rest);
        assert SqueezeNewlines(s) == "\n" + squeezed;
        SqueezeNewlinesKeepsLines(rest);
        PiecesDropSeparators(x, |x| - |rest|, IsNewline);
        PiecesSeparatorCons('\n', squeezed, IsNewline);
        PiecesSeparatorCons('\n', x, IsNewline);
      } else {
        var squeezed := SqueezeNewlines(x);
        assert SqueezeNewlines(s) == [s[0]] + squeezed;
        SqueezeNewlinesKeepsLines(x);
        PiecesNonSeparatorCons(s[0], squeezed, x, IsNewline);
      }
    }
  }

  /** The squeezed text ends with a newline exactly when the text did. */
  lemma {:induction false} SqueezeNewlinesKeepsEnd(s: string)
    requires s != []
    ensures s[|s| - 1] == '\n' <==> SqueezeNewlines(s)[|SqueezeNewlines(s)| - 1] == '\n'
    decreases |s|
  {
    var x := s[1..];
    if s[0] == '\n' {
      var rest := DropNewlines(x);
      assert SqueezeNewlines(s) == "\n" + SqueezeNewlines(rest);
      if rest != [] {
        SqueezeNewlinesKeepsEnd(rest);
        assert rest[|rest| - 1] == x[|x| - 1] == s[|s| - 1];
      } else if |s| > 1 {
        assert x[|x| - 1] == '\n';
        assert s[|s| - 1] == x[|x| - 1];
      }
    } else {
      assert SqueezeNewlines(s) == [s[0]] + SqueezeNewlines(x);
      if x != [] {
        SqueezeNewlinesKeepsEnd(x);
        assert s[|s| - 1] == x[|x| - 1];
      }
    }
  }

  /** Every run of whitespace (newlines included) replaced by one space: the
      result holds no whitespace but single spaces. */
  function CollapseSpace(s: string): (r: string)
    ensures |r| <= |s|
    ensures s != [] ==> r != [] && r[0] == (if IsSpace(s[0]) then ' ' else s[0])
    ensures forall i :: 0 <= i < |r| && IsSpace(r[i]) ==> r[i] == ' '
    ensures forall i :: 0 <= i < |r| - 1 ==> !(r[i] == ' ' && r[i + 1] == ' ')
    ensures NonSpace(r) == NonSpace(s)
    decreases |s|
  {
    if s == [] then []
    else if IsSpace(s[0]) then
      var t := TrimStart(s[1..]);
      TrimStartIsSuffix(s[1..]);
      TrimStartKeepsNonSpace(s[1..]);
      " " + CollapseSpace(t)
    else [s[0]] + CollapseSpace(s[1..])
  }

  /** Collapsing keeps the words (`str.split()`). With the last character
      (`CollapseSpaceKeepsEnd`), the first character rule and the single
      spaces, this fixes the result: each whitespace run became exactly one
      space. */
  lemma {:induction false} CollapseSpaceKeepsWords(s: string)
    ensures Pieces(CollapseSpace(s), IsSpace) == Pieces(s, IsSpace)
    decreases |s|
  {
    if s != [] {
      var x := s[1..];
      assert [s[0]] + x == s;
      if IsSpace(s[0]) {
        var t := TrimStart(x);
        TrimStartIsSuffix(x);
        var collapsed := CollapseSpace(t);
        assert CollapseSpace(s) == " " + collapsed;
        CollapseSpaceKeepsWords(t);
        PiecesDropSeparators(x, |x| - |t|, IsSpace);
        PiecesSeparatorCons(' ', collapsed, IsSpace);
        PiecesSeparatorCons(s[0], x, IsSpace);
      } else {
        var collapsed := CollapseSpace(x);
        assert CollapseSpace(s) == [s[0]] + collapsed;
        CollapseSpaceKeepsWords(x);
        PiecesNonSeparatorCons(s[0], collapsed, x, IsSpace);
      }
    }
  }

  /** The result ends with a space exactly when the input ends with
      whitespace. */
  lemma {:induction false} CollapseSpaceKeepsEnd(s: string)
    requires s != []
    ensures IsSpace(s[|s| - 1]) <==> CollapseSpace(s)[|CollapseSpace(s)| - 1] == ' '
    decreases |s|
  {
    var x := s[1..];
    if IsSpace(s[0]) {
      var t := TrimStart(x);
      TrimStartIsSuffix(x);
      assert CollapseSpace(s) == " " + CollapseSpace(t);
      if t != [] {
        CollapseSpaceKeepsEnd(t);
        assert t[|t| - 1] == s[|s| - 1];
      } else if |s| > 1 {
        assert s[|s| - 1] == x[|x| - 1];
      }
    } else {
      assert CollapseSpace(s) == [s[0]] + CollapseSpace(x);
      if x != [] {
        CollapseSpaceKeepsEnd(x);
        assert s[|s| - 1] == x[|x| - 1];
      }
    }
  }


  /** Leading whitespace holds nothing but whitespace. */
  lemma {:induction false} TrimStartKeepsNonSpace(s: string)
    ensures NonSpace(TrimStart(s)) == NonSpace(s)
    decreases |s|
  {
    if s != [] && IsSpace(s[0]) {
      TrimStartKeepsNonSpace(s[1..]);
    }
  }

  /** The page text as the parser sees it. */
  function Normalize(text: string): string
  {
    CollapseSpace(SqueezeNewlines(text))
  }

  /** The normalised text holds no newline, so splitting it at newlines
      yields one line: the text itself. */
  lemma NormalizedIsOneLine(text: string)
    ensures forall i :: 0 <= i < |Normalize(text)| ==> Normalize(text)[i] != '\n'
    ensures Split(Normalize(text), '\n') == [Normalize(text)]
  {
    SplitWithoutSeparator(Normalize(text), '\n');
  }

  // ---------------------------------------------------------------------
  // Date and time: re.search(r'(\d{1,2}[/-]\d{1,2}[/-]\d{4})') and
  // re.search(r'(\d{1,2}:\d{2})')
  // ---------------------------------------------------------------------

  predicate DigitAt(s: string, i: nat) { i < |s| && IsDigit(s[i]) }

  predicate IsDateSeparator(c: char) { c == '/' || c == '-' }

  predicate SepAt(s: string, i: nat) { i < |s| && IsDateSeparator(s[i]) }

  predicate YearDigitsAt(s: string, j: nat)
  {
    DigitAt(s, j) && DigitAt(s, j + 1) && DigitAt(s, j + 2) && DigitAt(s, j + 3)
  }

  /** `\d{1,2}[/-]\d{4}` from index `j`, greedy: where the match ends. */
  function DateTailAt(s: string, j: nat): (e: Option<nat>)
    ensures e.Some? ==> j + 6 <= e.value <= |s|
  {
    if DigitAt(s, j) && DigitAt(s, j + 1) && SepAt(s, j + 2) && YearDigitsAt(s, j + 3) then Some(j + 7)
    else if DigitAt(s, j) && SepAt(s, j + 1) && YearDigitsAt(s, j + 2) then Some(j + 6)
    else None
  }

  /** The date pattern at index `i`, the two-digit day tried before the
      one-digit one: where the match ends. */
  function DateMatchAt(s: string, i: nat): (e: Option<nat>)
    ensures e.Some? ==> i + 8 <= e.value <= |s|
  {
    if DigitAt(s, i) && DigitAt(s, i + 1) && SepAt(s, i + 2) && DateTailAt(s, i + 3).Some? then DateTailAt(s, i + 3)
    else if DigitAt(s, i) && SepAt(s, i + 1) then DateTailAt(s, i + 2)
    else None
  }

  /** A date as the pattern describes it, with a day of `d` and a month of
      `m` digits. */
  predicate DateTextWith(t: string, d: nat, m: nat)
  {
    && |t| == d + m + 6
    && (forall k :: 0 <= k < d ==> IsDigit(t[k]))
    && IsDateSeparator(t[d])
    && (forall k :: d + 1 <= k < d + 1 + m ==> IsDigit(t[k]))
    && IsDateSeparator(t[d + 1 + m])
    && (forall k :: d + m + 2 <= k < |t| ==> IsDigit(t[k]))
  }

  /** The strings the date pattern matches: one or two digits, a slash or a
      hyphen, one or two digits, a slash or a hyphen, four digits. */
  predicate IsDateText(t: string)
  {
    DateTextWith(t, 1, 1) || DateTextWith(t, 1, 2) || DateTextWith(t, 2, 1) || DateTextWith(t, 2, 2)
  }

  /** The matcher finds a date exactly where one starts, and what it matches
      is one. */
  lemma DateMatchAtIsDateText(s: string, i: nat)
    ensures DateMatchAt(s, i).Some? ==> IsDateText(s[i..DateMatchAt(s, i).value])
    ensures forall e :: i <= e <= |s| && IsDateText(s[i..e]) ==> DateMatchAt(s, i).Some?
  {
    if DateMatchAt(s, i).Some? {
      var t := s[i..DateMatchAt(s, i).value];
      assert forall k :: 0 <= k < |t| ==> t[k] == s[i + k];
    }
    forall e | i <= e <= |s| && IsDateText(s[i..e])
      ensures DateMatchAt(s, i).Some?
    {
      var t := s[i..e];
      assert forall k :: 0 <= k < |t| ==> t[k] == s[i + k];
    }
  }

  /** `\d{1,2}:\d{2}` at index `i`: where the match ends. */
  function TimeMatchAt(s: string, i: nat): (e: Option<nat>)
    ensures e.Some? ==> i + 4 <= e.value <= |s|
  {
    if DigitAt(s, i) && DigitAt(s, i + 1) && i + 2 < |s| && s[i + 2] == ':' && DigitAt(s, i + 3) && DigitAt(s, i + 4)
    then Some(i + 5)
    else if DigitAt(s, i) && i + 1 < |s| && s[i + 1] == ':' && DigitAt(s, i + 2) && DigitAt(s, i + 3)
    then Some(i + 4)
    else None
  }

  /** The date pattern matches at a position, as a function value. */
  function DateStart(s: string): nat -> bool
  {
    (i: nat) => DateMatchAt(s, i).Some?
  }

  /** The time pattern matches at a position, as a function value. */
  function TimeStart(s: string): nat -> bool
  {
    (i: nat) => TimeMatchAt(s, i).Some?
  }

  /** The date pattern matches at `i` and nowhere before it. */
  predicate FirstDateAt(s: string, i: nat)
  {
    DateMatchAt(s, i).Some? && forall j :: 0 <= j < i ==> DateMatchAt(s, j).None?
  }

  /** The time pattern matches at `i` and nowhere before it. */
  predicate FirstTimeAt(s: string, i: nat)
  {
    TimeMatchAt(s, i).Some? && forall j :: 0 <= j < i ==> TimeMatchAt(s, j).None?
  }

  /** `re.search` for the date pattern: the leftmost match, if any. */
  function SearchDate(s: string): (r: Option<string>)
    ensures r.Some? ==> exists i :: 0 <= i < |s| && FirstDateAt(s, i) && r.value == s[i..DateMatchAt(s, i).value]
    ensures r.None? ==> forall i :: 0 <= i < |s| ==> DateMatchAt(s, i).None?
  {
    match FirstFrom(0, |s|, DateStart(s))
    case None =>
      assert forall i :: 0 <= i < |s| ==> DateMatchAt(s, i).None? by {
        forall i | 0 <= i < |s| ensures DateMatchAt(s, i).None? { assert !DateStart(s)(i); }
      }
      None
    case Some(i) =>
      assert FirstDateAt(s, i) by {
        forall j | 0 <= j < i ensures DateMatchAt(s, j).None? { assert !DateStart(s)(j); }
      }
      Some(s[i..DateMatchAt(s, i).value])
  }

  /** `re.search` for the time pattern: the leftmost match, if any. */
  function SearchTime(s: string): (r: Option<string>)
    ensures r.Some? ==> exists i :: 0 <= i < |s| && FirstTimeAt(s, i) && r.value == s[i..TimeMatchAt(s, i).value]
    ensures r.None? ==> forall i :: 0 <= i < |s| ==> TimeMatchAt(s, i).None?
  {
    match FirstFrom(0, |s|, TimeStart(s))
    case None =>
      assert forall i :: 0 <= i < |s| ==> TimeMatchAt(s, i).None? by {
        forall i | 0 <= i < |s| ensures TimeMatchAt(s, i).None? { assert !TimeStart(s)(i); }
      }
      None
    case Some(i) =>
      assert FirstTimeAt(s, i) by {
        forall j | 0 <= j < i ensures TimeMatchAt(s, j).None? { assert !TimeStart(s)(j); }
      }
      Some(s[i..TimeMatchAt(s, i).value])
  }

  /** The date found is the leftmost one: whatever date starts first. */
  lemma SearchDateIsLeftmost(s: string, i: nat)
    requires i < |s| && DateMatchAt(s, i).Some?
    requires forall j :: 0 <= j < i ==> DateMatchAt(s, j).None?
    ensures SearchDate(s) == Some(s[i..DateMatchAt(s, i).value])
  {
    assert DateStart(s)(i);
    assert forall j :: 0 <= j < i ==> !DateStart(s)(j);
  }

  /** The time found is the leftmost one: whatever time starts first. */
  lemma SearchTimeIsLeftmost(s: string, i: nat)
    requires i < |s| && FirstTimeAt(s, i)
    ensures SearchTime(s) == Some(s[i..TimeMatchAt(s, i).value])
  {
    assert TimeStart(s)(i);
    assert forall j :: 0 <= j < i ==> !TimeStart(s)(j);
  }

  // ---------------------------------------------------------------------
  // Labelled values: re.search(r'Label\s*:?\s*([^,\n]+)', s, re.IGNORECASE)
  // ---------------------------------------------------------------------

  /** The tag at index `p`, in any case. */
  predicate LabelAt(s: string, p: nat, tag: string)
  {
    p + |tag| <= |s| && LowerStr(s[p..p + |tag|]) == LowerStr(tag)
  }

  /** The end of the run of whitespace starting at `i`. */
  function SpaceRunEnd(s: string, i: nat): (e: nat)
    requires i <= |s|
    ensures i <= e <= |s| && (e == |s| || !IsSpace(s[e]))
    ensures forall k :: i <= k < e ==> IsSpace(s[k])
    decreases |s| - i
  {
    if i < |s| && IsSpace(s[i]) then SpaceRunEnd(s, i + 1) else i
  }

  /** The capture group can start at `c`: a character other than a comma or
      a newline. */
  predicate CaptureOk(s: string, c: nat)
  {
    c < |s| && s[c] != ',' && s[c] != '\n'
  }

  /** The first of `hi`, `hi - 1`, ..., `lo` at which the capture can start:
      the order in which backing off a greedy `\s*` offers them. */
  function FirstOkDown(s: string, hi: nat, lo: nat): (c: Option<nat>)
    ensures c.Some? ==> lo <= c.value <= hi && CaptureOk(s, c.value)
    ensures c.Some? ==> forall k :: c.value < k <= hi ==> !CaptureOk(s, k)
    ensures c.None? ==> forall k :: lo <= k <= hi ==> !CaptureOk(s, k)
    decreases hi
  {
    if hi < lo then None
    else if CaptureOk(s, hi) then Some(hi)
    else if hi == 0 then None
    else FirstOkDown(s, hi - 1, lo)
  }

  /** Where the capture starts once the tag has matched ending at `q`: the
      engine first takes all the whitespace, then a colon if there is one
      and the whitespace after it, and backs off from there. */
  function CaptureStart(s: string, q: nat): (c: Option<nat>)
    requires q <= |s|
    ensures c.Some? ==> q <= c.value && CaptureOk(s, c.value)
  {
    var a := SpaceRunEnd(s, q);
    var afterColon := if a < |s| && s[a] == ':' then FirstOkDown(s, SpaceRunEnd(s, a + 1), a + 1) else None;
    if afterColon.Some? then afterColon else FirstOkDown(s, a, q)
  }

  /** The end of the run of characters other than commas and newlines. */
  function CaptureEnd(s: string, c: nat): (e: nat)
    requires c <= |s|
    ensures c <= e <= |s| && (e == |s| || s[e] == ',' || s[e] == '\n')
    ensures forall k :: c <= k < e ==> s[k] != ',' && s[k] != '\n'
    decreases |s| - c
  {
    if c < |s| && s[c] != ',' && s[c] != '\n' then CaptureEnd(s, c + 1) else c
  }

  /** The whole pattern at index `p`: where its capture starts. */
  function LabelMatchAt(s: string, p: nat, tag: string): (c: Option<nat>)
    ensures c.Some? ==> LabelAt(s, p, tag) && p + |tag| <= c.value && CaptureOk(s, c.value)
  {
    if LabelAt(s, p, tag) then CaptureStart(s, p + |tag|) else None
  }

  /** The labelled pattern matches at a position, as a function value. */
  function LabelStart(s: string, tag: string): nat -> bool
  {
    (p: nat) => LabelMatchAt(s, p, tag).Some?
  }

  /** The labelled pattern matches at `p` and nowhere before it. */
  predicate FirstLabelAt(s: string, p: nat, tag: string)
  {
    LabelMatchAt(s, p, tag).Some? && forall j :: 0 <= j < p ==> LabelMatchAt(s, j, tag).None?
  }

  /** `re.search` for one labelled pattern, then `group(1).strip()`: the
      leftmost match, if any. */
  function SearchLabel(s: string, tag: string): (r: Option<string>)
    ensures r.Some? ==>
      exists p :: 0 <= p < |s| && FirstLabelAt(s, p, tag) &&
        r.value == Strip(s[LabelMatchAt(s, p, tag).value..CaptureEnd(s, LabelMatchAt(s, p, tag).value)])
    ensures r.None? ==> forall p :: 0 <= p < |s| ==> LabelMatchAt(s, p, tag).None?
  {
    match FirstFrom(0, |s|, LabelStart(s, tag))
    case None =>
      assert forall p :: 0 <= p < |s| ==> LabelMatchAt(s, p, tag).None? by {
        forall p | 0 <= p < |s| ensures LabelMatchAt(s, p, tag).None? { assert !LabelStart(s, tag)(p); }
      }
      None
    case Some(p) =>
      assert FirstLabelAt(s, p, tag) by {
        forall j | 0 <= j < p ensures LabelMatchAt(s, j, tag).None? { assert !LabelStart(s, tag)(j); }
      }
      var c := LabelMatchAt(s, p, tag).value;
      Some(Strip(s[c..CaptureEnd(s, c)]))
  }

  /** The labelled value found is the one of the leftmost match. */
  lemma SearchLabelIsLeftmost(s: string, tag: string, p: nat)
    requires p < |s| && FirstLabelAt(s, p, tag)
    ensures var c := LabelMatchAt(s, p, tag).value;
      SearchLabel(s, tag) == Some(Strip(s[c..CaptureEnd(s, c)]))
  {
    assert LabelStart(s, tag)(p);
    assert forall j :: 0 <= j < p ==> !LabelStart(s, tag)(j);
    SearchLabelFirst(s, tag, p);
  }

  function LabelSearch(s: string): string -> Option<string>
  {
    tag => SearchLabel(s, tag)
  }

  /** The labelled patterns tried in order: the first that matches wins. */
  function FirstLabelled(s: string, labels: seq<string>): (r: Option<string>)
    ensures r.Some? ==>
      exists k :: 0 <= k < |labels| && SearchLabel(s, labels[k]) == r &&
        forall j :: 0 <= j < k ==> SearchLabel(s, labels[j]).None?
    ensures r.None? ==> forall k :: 0 <= k < |labels| ==> SearchLabel(s, labels[k]).None?
  {
    FirstSome(labels, LabelSearch(s))
  }

  /** The usual shape "Label: value": after the tag come optional
      whitespace, an optional colon and optional whitespace, then a
      character that may start the value. The value is then the stripped run
      up to the next comma or newline, starting at that character. */
  lemma CaptureStartUsual(s: string, q: nat)
    requires q <= |s|
    ensures var a := SpaceRunEnd(s, q);
      && (a < |s| && s[a] == ':' && CaptureOk(s, SpaceRunEnd(s, a + 1)) ==>
            CaptureStart(s, q) == Some(SpaceRunEnd(s, a + 1)))
      && (!(a < |s| && s[a] == ':') && CaptureOk(s, a) ==> CaptureStart(s, q) == Some(a))
  {
  }

  /** A tag followed at once by a comma still matches when a colon sits
      between them: the colon is not taken as the optional colon but becomes
      the value. So "Cliente:, Animal: Rex" gives the client ":". */
  lemma ColonBeforeCommaIsTheValue()
    ensures SearchLabel("Cliente:, Animal: Rex", "Cliente") == Some(":")
  {
    var s := "Cliente:, Animal: Rex";
    ClienteColonComma(s);
    SearchLabelFirst(s, "Cliente", 0);
    StripUnchanged(":");
  }

  /** A search that finds its pattern first at `p` captures from there. */
  lemma SearchLabelFirst(s: string, tag: string, p: nat)
    requires FirstFrom(0, |s|, LabelStart(s, tag)) == Some(p)
    ensures LabelMatchAt(s, p, tag).Some?
    ensures var c := LabelMatchAt(s, p, tag).value;
      SearchLabel(s, tag) == Some(Strip(s[c..CaptureEnd(s, c)]))
  {
  }

  lemma ClienteColonComma(s: string)
    requires s == "Cliente:, Animal: Rex"
    ensures LabelMatchAt(s, 0, "Cliente") == Some(7)
    ensures CaptureEnd(s, 7) == 8
    ensures FirstFrom(0, |s|, LabelStart(s, "Cliente")) == Some(0)
    ensures s[7..8] == ":"
  {
    assert s[..7] == "Cliente";
    assert LabelAt(s, 0, "Cliente");
    ColonThenComma(s, 7);
  }

  /** A colon followed at once by a comma: the capture starts at the colon
      and is the colon alone. */
  lemma ColonThenComma(s: string, q: nat)
    requires q + 1 < |s| && s[q] == ':' && s[q + 1] == ','
    ensures CaptureStart(s, q) == Some(q)
    ensures CaptureEnd(s, q) == q + 1
  {
    assert SpaceRunEnd(s, q) == q;
    assert SpaceRunEnd(s, q + 1) == q + 1;
    assert FirstOkDown(s, q + 1, q + 1) == None;
    assert FirstOkDown(s, q, q) == Some(q);
  }

  // ---------------------------------------------------------------------
  // Keyword fallbacks: re.search(r'\b' + keyword + r'\b', s, re.IGNORECASE)
  // ---------------------------------------------------------------------

  /** The keyword at index `p` in any case, as a whole word. */
  predicate WordAt(s: string, p: nat, word: string)
  {
    && LabelAt(s, p, word)
    && (p == 0 || !IsWordChar(s[p - 1]))
    && (p + |word| == |s| || !IsWordChar(s[p + |word|]))
  }

  function WordStart(s: string, word: string): nat -> bool
  {
    (p: nat) => WordAt(s, p, word)
  }

  /** `re.search(r'\b' + word + r'\b', s, re.IGNORECASE)` succeeds. */
  predicate HasWord(s: string, word: string)
  {
    FirstFrom(0, |s|, WordStart(s, word)).Some?
  }

  /** `str.title` of a single word: its first letter in upper case, the rest
      in lower case. */
  function TitleWord(w: string): (r: string)
    ensures |r| == |w|
    ensures w != [] ==> r[0] == Upper(w[0])
    ensures forall i :: 1 <= i < |w| ==> r[i] == Lower(w[i])
  {
    if w == [] then [] else [Upper(w[0])] + LowerStr(w[1..])
  }

  /** The first keyword of the list present as a whole word, title-cased. */
  function FirstKeyword(s: string, words: seq<string>): (r: Option<string>)
    ensures r.Some? ==>
      exists k :: 0 <= k < |words| && HasWord(s, words[k]) && r.value == TitleWord(words[k]) &&
        forall j :: 0 <= j < k ==> !HasWord(s, words[j])
    ensures r.None? ==> forall k :: 0 <= k < |words| ==> !HasWord(s, words[k])
    decreases |words|
  {
    if words == [] then None
    else if HasWord(s, words[0]) then Some(TitleWord(words[0]))
    else
      var r := FirstKeyword(s, words[1..]);
      assert forall k :: 0 <= k < |words| - 1 ==> words[1..][k] == words[k + 1];
      r
  }

  // ---------------------------------------------------------------------
  // The field extractors
  // ---------------------------------------------------------------------

  const VeterinariaLabels: seq<string> := ["Veterin\U{E1}ria", "Cl\U{ED}nica", "Hospital"]
  const ClienteLabels: seq<string> := ["Cliente", "Propriet\U{E1}rio", "Tutor"]
  const AnimalLabels: seq<string> := ["Animal", "Pet", "Paciente"]
  const TipoLabels: seq<string> := ["Tipo", "Atendimento", "Servi\U{E7}o", "Consulta"]
  const StatusLabels: seq<string> := ["Status", "Situa\U{E7}\U{E3}o"]
  const TipoKeywords: seq<string> := ["consulta", "cirurgia", "vacina", "exame", "retorno", "emerg\U{EA}ncia"]
  const StatusKeywords: seq<string> := ["agendado", "confirmado", "realizado", "cancelado", "pendente"]
  const StatusDefault: string := "N\U{E3}o informado"

  /** A labelled value, or '' when no pattern matches. */
  function LabelledOrEmpty(s: string, labels: seq<string>): (r: string)
    ensures FirstLabelled(s, labels).Some? ==> r == FirstLabelled(s, labels).value
    ensures FirstLabelled(s, labels).None? ==> r == ""
  {
    match FirstLabelled(s, labels)
    case Some(v) => v
    case None => ""
  }

  function Veterinaria(s: string): string { LabelledOrEmpty(s, VeterinariaLabels) }

  function Cliente(s: string): string { LabelledOrEmpty(s, ClienteLabels) }

  function Animal(s: string): string { LabelledOrEmpty(s, AnimalLabels) }

  /** The labelled value; failing that, the first keyword present,
      title-cased; failing that, ''. */
  function TipoAtendimento(s: string): string
  {
    match FirstLabelled(s, TipoLabels)
    case Some(v) => v
    case None =>
      match FirstKeyword(s, TipoKeywords)
      case Some(w) => w
      case None => ""
  }

  /** Without a labelled value, the type of service is the title-cased
      first keyword of the list that the text holds as a whole word, or ''
      when it holds none. */
  lemma TipoAtendimentoFallback(s: string)
    requires FirstLabelled(s, TipoLabels).None?
    ensures TipoAtendimento(s) == "" <==> forall k :: 0 <= k < |TipoKeywords| ==> !HasWord(s, TipoKeywords[k])
    ensures TipoAtendimento(s) != "" ==>
      exists k :: 0 <= k < |TipoKeywords| && HasWord(s, TipoKeywords[k]) &&
        TipoAtendimento(s) == TitleWord(TipoKeywords[k]) && forall j :: 0 <= j < k ==> !HasWord(s, TipoKeywords[j])
  {
  }

  /** The labelled value; failing that, the first keyword present,
      title-cased; failing that, "Não informado". */
  function Status(s: string): (r: string)
    ensures FirstLabelled(s, StatusLabels).None? && FirstKeyword(s, StatusKeywords).None? ==> r == StatusDefault
    ensures FirstLabelled(s, StatusLabels).Some? ==> r == FirstLabelled(s, StatusLabels).value
    ensures FirstLabelled(s, StatusLabels).None? && FirstKeyword(s, StatusKeywords).Some? ==>
      r == FirstKeyword(s, StatusKeywords).value
  {
    match FirstLabelled(s, StatusLabels)
    case Some(v) => v
    case None =>
      match FirstKeyword(s, StatusKeywords)
      case Some(w) => w
      case None => StatusDefault
  }

  /** The record's copy of the text: itself up to 200 characters, else its
      first 200 characters followed by "...". */
  function Excerpt(s: string): (r: string)
    ensures |s| <= 200 ==> r == s
    ensures |s| > 200 ==> |r| == 203 && r[..200] == s[..200] && r[200..] == "..."
  {
    if |s| > 200 then s[..200] + "..." else s
  }

  // ---------------------------------------------------------------------
  // Records from lines
  // ---------------------------------------------------------------------

  /** The record read from a window of lines joined by spaces: one exactly
      when the text holds a date; its date is the leftmost one and its time
      the leftmost time, or ''. */
  function ContextRecord(context: seq<string>): (r: Option<TextAppointment>)
  {
    var full := Join(context, " ");
    match SearchDate(full)
    case None => None
    case Some(data) =>
      var hora := match SearchTime(full) case None => "" case Some(t) => t;
      var a := TextAppointment(Veterinaria(full), Cliente(full), Animal(full), TipoAtendimento(full),
                               data, hora, Status(full), Excerpt(full));
      if a.data != "" || a.cliente != "" || a.animal != "" then Some(a) else None
  }

  /** A record exists exactly when the window holds a date, and then
      carries the leftmost date and time and the excerpt of the window. */
  lemma ContextRecordIffDate(context: seq<string>)
    ensures var full := Join(context, " ");
      && (ContextRecord(context).Some? <==> SearchDate(full).Some?)
      && (ContextRecord(context).Some? ==>
            && ContextRecord(context).value.data == SearchDate(full).value
            && IsDateText(ContextRecord(context).value.data)
            && ContextRecord(context).value.hora == (if SearchTime(full).Some? then SearchTime(full).value else "")
            && ContextRecord(context).value.textoOriginal == Excerpt(full))
  {
    var full := Join(context, " ");
    if SearchDate(full).Some? {
      SearchDateIsDateText(full);
    }
  }

  /** A record's time is empty exactly when the window holds no time at
      all. */
  lemma ContextRecordTimeEmptyIffNone(context: seq<string>)
    requires ContextRecord(context).Some?
    ensures var full := Join(context, " ");
      ContextRecord(context).value.hora == "" <==> forall i :: 0 <= i < |full| ==> TimeMatchAt(full, i).None?
  {
    var full := Join(context, " ");
    if SearchTime(full).Some? {
      SearchTimeNotEmpty(full);
    }
  }

  /** The other fields of a record are the field extractors applied to the
      whole window. */
  lemma ContextRecordFields(context: seq<string>)
    requires ContextRecord(context).Some?
    ensures var full := Join(context, " "); var a := ContextRecord(context).value;
      && a.veterinaria == Veterinaria(full) && a.cliente == Cliente(full) && a.animal == Animal(full)
      && a.tipoAtendimento == TipoAtendimento(full) && a.status == Status(full)
  {
  }

  /** A time found by the search is never empty: at least "d:dd". */
  lemma SearchTimeNotEmpty(full: string)
    requires SearchTime(full).Some?
    ensures |SearchTime(full).value| >= 4
  {
    var i :| 0 <= i < |full| && FirstTimeAt(full, i) && SearchTime(full).value == full[i..TimeMatchAt(full, i).value];
  }

  /** A date found by the search has the shape of a date. */
  lemma SearchDateIsDateText(full: string)
    requires SearchDate(full).Some?
    ensures IsDateText(SearchDate(full).value)
  {
    var i :| 0 <= i < |full| && DateMatchAt(full, i).Some? && SearchDate(full).value == full[i..DateMatchAt(full, i).value];
    DateMatchAtIsDateText(full, i);
  }

  /** The record for line `i`: none for a blank line; otherwise the record
      of the window of up to five lines starting there. */
  function LineRecord(lines: seq<string>, i: nat): Option<TextAppointment>
  {
    if i >= |lines| || Strip(lines[i]) == "" then None
    else ContextRecord(lines[i..if i + 5 <= |lines| then i + 5 else |lines|])
  }

  function LineRule(lines: seq<string>): nat -> Option<TextAppointment>
  {
    (i: nat) => LineRecord(lines, i)
  }

  /** The line positions 0, 1, ..., n - 1. */
  function Positions(n: nat): (ps: seq<nat>)
    ensures |ps| == n && forall i :: 0 <= i < n ==> ps[i] == i
  {
    seq(n, i requires 0 <= i < n => i as nat)
  }

  /** The records of some lines, line by line. */
  function LinesRecords(lines: seq<string>): seq<TextAppointment>
  {
    FilterMap(Positions(|lines|), LineRule(lines))
  }

  /** The records of a page's text. */
  function TextRecords(text: string): seq<TextAppointment>
  {
    LinesRecords(Split(Normalize(text), '\n'))
  }

  /** The text parser: normalise, split into lines, and read a record from
      each non-blank line and the four after it. */
  method ParseAppointmentsFromText(text: string) returns (appointments: seq<TextAppointment>)
    ensures appointments == TextRecords(text)
  {
    var normalized := Normalize(text);
    var lines := Split(normalized, '\n');
    ghost var positions := Positions(|lines|);
    appointments := [];
    var i := 0;
    while i < |lines|
      invariant 0 <= i <= |lines|
      invariant appointments == FilterMap(positions[..i], LineRule(lines))
    {
      ghost var outcome := LineRecord(lines, i);
      FilterMapExtend(positions, i, LineRule(lines), appointments, outcome);
      var line := Strip(lines[i]);
      if line != "" {
        var end := if i + 5 <= |lines| then i + 5 else |lines|;
        var appointment := ContextRecord(lines[i..end]);
        if appointment.Some? {
          appointments := appointments + [appointment.value];
        }
      }
      i := i + 1;
    }
    assert positions[..|lines|] == positions;
  }

  /** Since the normalised text is one line, a page yields at most one
      record: the record of its whole normalised text, when that is not
      blank. */
  lemma TextRecordsAtMostOne(text: string)
    ensures var n := Normalize(text);
      TextRecords(text) == (if Strip(n) == "" || ContextRecord([n]).None? then [] else [ContextRecord([n]).value])
  {
    var n := Normalize(text);
    NormalizedIsOneLine(text);
    var lines := [n];
    assert Positions(1) == [0];
    assert Positions(1)[..0] == [];
    assert lines[0..1] == [n];
  }

  // ---------------------------------------------------------------------
  // Pages and the whole document
  // ---------------------------------------------------------------------

  /** The records of a page: nothing when it has no text. */
  function TextPageRecords(page: Page): seq<TextAppointment>
  {
    if page.Unreadable? || page.text == "" then [] else TextRecords(page.text)
  }

  /** The records of the document: the pages before the first one the
      library fails on. */
  function TextDocumentRecords(pages: seq<Page>): seq<TextAppointment>
  {
    ConcatMap(ReadablePrefix(pages), TextPageRecords)
  }

  /** The page loop. */
  method ExtractTextAppointmentsFromPdf(pages: seq<Page>) returns (appointments: seq<TextAppointment>)
    ensures appointments == TextDocumentRecords(pages)
  {
    appointments := [];
    var p := 0;
    while p < |pages|
      invariant 0 <= p <= |pages|
      invariant forall k :: 0 <= k < p ==> pages[k].Page?
      invariant appointments == ConcatMap(pages[..p], TextPageRecords)
    {
      if pages[p].Unreadable? {
        ReadablePrefixEndsAt(pages, p);
        return;
      }
      assert forall k :: 0 <= k < p + 1 ==> pages[k].Page?;
      var pageAppointments: seq<TextAppointment> := [];
      if pages[p].text != "" {
        pageAppointments := ParseAppointmentsFromText(pages[p].text);
      }
      ConcatMapExtend(pages, p, TextPageRecords, appointments, pageAppointments);
      appointments := appointments + pageAppointments;
      p := p + 1;
    }
    ReadablePrefixEndsAt(pages, p);
  }

  /** The document yields at most one record per page read. */
  lemma {:induction false} AtMostOnePerPage(pages: seq<Page>)
    ensures |ConcatMap(pages, TextPageRecords)| <= |pages|
    decreases |pages|
  {
    if pages != [] {
      var n := |pages| - 1;
      AtMostOnePerPage(pages[..n]);
      if pages[n].Page? && pages[n].text != "" {
        TextRecordsAtMostOne(pages[n].text);
      }
    }
  }

  // ---------------------------------------------------------------------
  // Writing the workbook
  // ---------------------------------------------------------------------

  /** The sheet's columns: the record's keys in the order it is built. */
  const TextColumns: seq<string> :=
    ["veterinaria", "cliente", "animal", "tipo_atendimento", "data", "hora", "status", "texto_original"]

  function TextSheetRow(a: TextAppointment): (r: seq<string>)
    ensures |r| == |TextColumns|
  {
    [a.veterinaria, a.cliente, a.animal, a.tipoAtendimento, a.data, a.hora, a.status, a.textoOriginal]
  }

  /** The sheet: the header row, then one row per record, in order. */
  function TextSheetOf(records: seq<TextAppointment>): (sheet: seq<seq<string>>)
    ensures |sheet| == |records| + 1 && sheet[0] == TextColumns
    ensures Workbook.Rectangular(sheet)
    ensures forall k :: 0 <= k < |records| ==> sheet[k + 1] == TextSheetRow(records[k])
  {
    [TextColumns] + seq(|records|, k requires 0 <= k < |records| => TextSheetRow(records[k]))
  }

  /** The converter: None for a missing file, a document without records or
      a failed write; otherwise the sheet of the records at the workbook
      path derived from the PDF's. */
  function TextConvertPdfToExcel(pdfPath: string, month: string, document: Option<seq<Page>>,
                                 writeSucceeds: bool): (r: Option<Workbook.Conversion>)
    ensures r.Some? <==> document.Some? && TextDocumentRecords(document.value) != [] && writeSucceeds
    ensures r.Some? ==>
      var records := TextDocumentRecords(document.value);
      && r.value.path == Workbook.ExcelPathForPdf(pdfPath, month)
      && |r.value.sheet| == |records| + 1 && r.value.sheet[0] == TextColumns
      && Workbook.Rectangular(r.value.sheet)
      && forall k :: 0 <= k < |records| ==> r.value.sheet[k + 1] == TextSheetRow(records[k])
  {
    match document
    case None => None
    case Some(pages) =>
      var records := TextDocumentRecords(pages);
      if records == [] || !writeSucceeds then None
      else
        Some(Workbook.Conversion(Workbook.ExcelPathForPdf(pdfPath, month), TextSheetOf(records)))
  }
}
