/** The year recognizer (`is_valid_year`) and the year-row locator
    (`get_all_income_years`) of netIncome.py.

    The generic date parser is a parameter: `parse(s)` is the year of the
    date `s` denotes, or None where the parser raises `ValueError`.
    `is_date(s)` is exactly "parse(s) does not raise".

    The row and table scans are stated over any cell classifier; the one
    `get_all_income_years` uses is `YearClassifier(thisYear, parse)`. */
module Years {
  import opened Wrappers
  import opened PyStr
  import opened Normalize
  import opened Tables

  type DateParse = string -> Option<int>

  /** `is_valid_year`: inside the ten-year window that ends just before `thisYear`. */
  predicate IsValidYear(thisYear: int, y: int) {
    thisYear - 10 <= y < thisYear
  }

  /** With the source's `this_year = 2018` the window is 2008 through 2017. */
  lemma ValidYearWindow2018(y: int)
    ensures IsValidYear(2018, y) <==> 2008 <= y <= 2017
    ensures !IsValidYear(2018, 2018) && IsValidYear(2018, 2008) && !IsValidYear(2018, 2007)
  {
  }

  /** What one cell contributes to the year scan. */
  datatype CellYear = Year(y: int) | NotYear | ParseError

  type Classifier = string -> CellYear

  /** The text the year scan inspects: `get_cell_text`, then cut at `(`
      (twice, as the source does; the second cut never changes anything). */
  function YearToken(raw: string): (r: string)
    ensures '(' !in r && '\n' !in r
    ensures r == UseableText(CellText(raw))
  {
    UseableTextIdempotent(CellText(raw));
    UseableText(UseableText(CellText(raw)))
  }

  /** One iteration of the cell loop of `get_all_income_years`: a digit
      string is a year when it lies in the window; otherwise, when the text
      is a date, the text with `,` widened to `, ` is parsed again, and a
      `ValueError` there is `ParseError` (the `break`). */
  function ClassifyCell(thisYear: int, parse: DateParse, raw: string): (r: CellYear)
    ensures r.Year? ==> IsValidYear(thisYear, r.y)
    ensures IsDigits(YearToken(raw)) ==>
      r == (if IsValidYear(thisYear, DigitsValue(YearToken(raw))) then Year(DigitsValue(YearToken(raw))) else NotYear)
    ensures !IsDigits(YearToken(raw)) && parse(YearToken(raw)).None? ==> r == NotYear
    ensures !IsDigits(YearToken(raw)) && parse(YearToken(raw)).Some? && parse(SpaceAfterCommas(YearToken(raw))).Some? ==>
      var y := parse(SpaceAfterCommas(YearToken(raw))).value;
      r == (if IsValidYear(thisYear, y) then Year(y) else NotYear)
    ensures r == ParseError <==>
      !IsDigits(YearToken(raw)) && parse(YearToken(raw)).Some? && parse(SpaceAfterCommas(YearToken(raw))).None?
  {
    var text := YearToken(raw);
    if IsDigits(text) then
      var y := DigitsValue(text);
      if IsValidYear(thisYear, y) then Year(y) else NotYear
    else if parse(text).Some? then
      match parse(SpaceAfterCommas(text))
      case None => ParseError
      case Some(y) => if IsValidYear(thisYear, y) then Year(y) else NotYear
    else NotYear
  }

  /** The classifier of `get_all_income_years` for a given current year and parser. */
  function YearClassifier(thisYear: int, parse: DateParse): Classifier {
    raw => ClassifyCell(thisYear, parse, raw)
  }

  /** Every year a classifier reports lies in the window of `thisYear`. */
  ghost predicate WithinWindow(classify: Classifier, thisYear: int) {
    forall raw :: classify(raw).Year? ==> IsValidYear(thisYear, classify(raw).y)
  }

  lemma YearClassifierWithinWindow(thisYear: int, parse: DateParse)
    ensures WithinWindow(YearClassifier(thisYear, parse), thisYear)
  {
  }

  /** The classification of every cell of a row, in column order. */
  function ClassifyRow(classify: Classifier, row: Row): (r: seq<CellYear>)
    ensures |r| == |row|
    ensures forall k :: 0 <= k < |row| ==> r[k] == classify(row[k])
  {
    if row == [] then [] else [classify(row[0])] + ClassifyRow(classify, row[1..])
  }

  /** The years of a classified row, read left to right up to the first
      parse error. */
  function TakeYears(cs: seq<CellYear>): (r: seq<int>)
    ensures |r| <= |cs|
  {
    if cs == [] then []
    else match cs[0]
      case Year(y) => [y] + TakeYears(cs[1..])
      case NotYear => TakeYears(cs[1..])
      case ParseError => []
  }

  predicate NoParseError(cs: seq<CellYear>) {
    forall k :: 0 <= k < |cs| ==> !cs[k].ParseError?
  }

  /** When every year a row's cells report is valid, so is every year taken
      from the row. */
  lemma {:induction false} TakeYearsValid(thisYear: int, cs: seq<CellYear>)
    requires forall j :: 0 <= j < |cs| && cs[j].Year? ==> IsValidYear(thisYear, cs[j].y)
    ensures forall k :: 0 <= k < |TakeYears(cs)| ==> IsValidYear(thisYear, TakeYears(cs)[k])
  {
    if cs != [] && !cs[0].ParseError? {
      TakeYearsValid(thisYear, cs[1..]);
    }
  }

  /** Column order and the `break`: cells before a parse error contribute
      their years in order, and nothing after the error counts. */
  lemma {:induction false} TakeYearsAppend(a: seq<CellYear>, b: seq<CellYear>)
    ensures NoParseError(a) ==> TakeYears(a + b) == TakeYears(a) + TakeYears(b)
    ensures !NoParseError(a) ==> TakeYears(a + b) == TakeYears(a)
  {
    if a == [] {
      assert a + b == b;
    } else {
      assert (a + b)[0] == a[0];
      assert (a + b)[1..] == a[1..] + b;
      TakeYearsAppend(a[1..], b);
      if !a[0].ParseError? {
        assert NoParseError(a) <==> NoParseError(a[1..]) by {
          assert forall k :: 0 <= k < |a[1..]| ==> a[1..][k] == a[k + 1];
        }
      }
    }
  }

  /** One step of the cell loop: a cell that is not a parse error extends the
      years taken so far by its own year, if any. */
  lemma TakeYearsStep(cs: seq<CellYear>, k: nat)
    requires k < |cs| && NoParseError(cs[..k]) && !cs[k].ParseError?
    ensures NoParseError(cs[..k + 1])
    ensures TakeYears(cs[..k + 1]) == TakeYears(cs[..k]) + (if cs[k].Year? then [cs[k].y] else [])
  {
    assert cs[..k + 1] == cs[..k] + [cs[k]];
    TakeYearsAppend(cs[..k], [cs[k]]);
    assert [cs[k]][1..] == [];
  }

  /** Leaving the cell loop, by exhaustion or by `break`, has taken all the
      years the row yields. */
  lemma TakeYearsStop(cs: seq<CellYear>, k: nat)
    requires k <= |cs| && NoParseError(cs[..k]) && (k == |cs| || cs[k].ParseError?)
    ensures TakeYears(cs) == TakeYears(cs[..k])
  {
    assert cs[..k] + cs[k..] == cs;
    TakeYearsAppend(cs[..k], cs[k..]);
  }

  /** The years one row yields: reported years in column order, the scan
      ending at the first cell whose date re-parse fails. */
  function RowYears(classify: Classifier, row: Row): (r: seq<int>)
    ensures |r| <= |row|
  {
    TakeYears(ClassifyRow(classify, row))
  }

  /** A row's years lie in the window when the classifier's do. */
  lemma RowYearsWithinWindow(classify: Classifier, thisYear: int, row: Row)
    requires WithinWindow(classify, thisYear)
    ensures forall k :: 0 <= k < |RowYears(classify, row)| ==> IsValidYear(thisYear, RowYears(classify, row)[k])
  {
    TakeYearsValid(thisYear, ClassifyRow(classify, row));
  }

  /** `get_all_income_years`: the years of the first row that yields any;
      empty exactly when no row yields a year. */
  function IncomeYears(classify: Classifier, t: Table): (r: seq<int>)
    ensures r == [] <==> forall i :: 0 <= i < |t| ==> RowYears(classify, t[i]) == []
    ensures r != [] ==> exists i :: 0 <= i < |t| && r == RowYears(classify, t[i]) &&
                                 forall j :: 0 <= j < i ==> RowYears(classify, t[j]) == []
  {
    if t == [] then []
    else if RowYears(classify, t[0]) != [] then RowYears(classify, t[0])
    else
      var r := IncomeYears(classify, t[1..]);
      assert forall i :: 1 <= i < |t| ==> t[i] == t[1..][i - 1];
      if r != [] then
        var i' :| 0 <= i' < |t[1..]| && r == RowYears(classify, t[1..][i']) &&
          forall j :: 0 <= j < i' ==> RowYears(classify, t[1..][j]) == [];
        assert r == RowYears(classify, t[i' + 1]);
        r
      else r
  }

  /** Every year `get_all_income_years` returns passes `is_valid_year`. */
  lemma IncomeYearsValid(thisYear: int, parse: DateParse, t: Table)
    ensures var r := IncomeYears(YearClassifier(thisYear, parse), t);
            forall k :: 0 <= k < |r| ==> IsValidYear(thisYear, r[k])
  {
    var classify := YearClassifier(thisYear, parse);
    var r := IncomeYears(classify, t);
    if r != [] {
      var i :| 0 <= i < |t| && r == RowYears(classify, t[i]);
      YearClassifierWithinWindow(thisYear, parse);
      RowYearsWithinWindow(classify, thisYear, t[i]);
    }
  }

  /** The cell loop of `get_all_income_years` for one row: reported years are
      appended in column order and a failed date re-parse `break`s. */
  method ScanRowYears(classify: Classifier, row: Row) returns (years: seq<int>)
    ensures years == RowYears(classify, row)
  {
    ghost var cs := ClassifyRow(classify, row);
    years := [];
    var k := 0;
    while k < |row|
      invariant 0 <= k <= |row|
      invariant NoParseError(cs[..k])
      invariant years == TakeYears(cs[..k])
    {
      var cell := classify(row[k]);
      if cell.ParseError? {
        break;
      }
      TakeYearsStep(cs, k);
      if cell.Year? {
        years := years + [cell.y];
      }
      k := k + 1;
    }
    TakeYearsStop(cs, k);
  }

  /** The row loop of `get_all_income_years` with its `found_year_row` flag:
      the flag is tested at the top of each row, so the row that first yields
      a year is scanned to its end (or its `break`) and the next row returns. */
  method ScanIncomeYears(classify: Classifier, t: Table) returns (years: seq<int>)
    ensures years == IncomeYears(classify, t)
  {
    years := [];
    var found := false;
    var i := 0;
    while i < |t|
      invariant 0 <= i <= |t|
      invariant found <==> years != []
      invariant found ==> years == IncomeYears(classify, t)
      invariant !found ==> IncomeYears(classify, t) == IncomeYears(classify, t[i..])
    {
      if found {
        return;
      }
      var rowYears := ScanRowYears(classify, t[i]);
      if rowYears != [] {
        found := true;
      }
      years := years + rowYears;
      assert t[i..][0] == t[i] && t[i..][1..] == t[i + 1..];
      i := i + 1;
    }
    assert t[i..] == [];
  }
}
