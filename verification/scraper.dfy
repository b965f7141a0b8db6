/** The column lookup of scraper.py: `find_net_income(year, tables)` finds
    the first cell labelled net income, `find_column_num` the position of
    the requested year among the year row's numeric cells, and `get_n_num`
    the value at that position among the numeric cells of the label's row.
    Positions count only the cells that read as numbers, not all cells. */
module Scraper {
  import opened Wrappers
  import opened PyStr
  import opened Tables
  import opened Normalize
  import opened Amounts

  /** The label test of scraper.py `find_net_income`. */
  predicate ScraperLabel(text: string) {
    text == "Net income" || text == "Net income (loss)"
  }

  /** A cell whose normalised text passes the label test. */
  predicate ScraperAccept(raw: string) {
    ScraperLabel(CutCellText(raw))
  }

  /** The second label can never match: normalisation has already cut the
      text at its `(`. So only "Net income" is recognised. */
  lemma ScraperAcceptIff(raw: string)
    ensures CutCellText(raw) != "Net income (loss)"
    ensures ScraperAccept(raw) <==> CutCellText(raw) == "Net income"
  {
    var loss := "Net income (loss)";
    assert loss[11] == '(';
    assert '(' in loss;
  }

  /** A year-row cell of `find_column_num`: its normalised text, when all
      digits, read as a number. */
  function YearCell(raw: string): (r: Option<int>)
    ensures r.Some? ==> r.value >= 0
  {
    var text := UseableText(CutCellText(raw));
    if IsDigits(text) then Some(DigitsValue(text)) else None
  }

  /** A value-row cell of `get_n_num`: its text with `,` and newlines removed
      but NOT stripped, when all digits, read as a number. */
  function NumberCell(raw: string): (r: Option<int>)
    ensures r.Some? ==> r.value >= 0
  {
    var text := AmountText(raw);
    if IsDigits(text) then Some(DigitsValue(text)) else None
  }

  /** A year cell reads the decimal spelling of a number back as that number. */
  lemma YearCellDecimal(n: nat)
    ensures YearCell(Decimal(n)) == Some(n)
  {
    var d := Decimal(n);
    DecimalRoundTrip(n);
    DigitsFree(d);
    RemoveAbsentChar(d, '\n');
    PrefixBeforeAbsent(d, '(');
    StripStripped(d);
    assert CutCellText(d) == d;
    PrefixBeforeAbsent(d, '(');
  }

  /** A value-row cell reads the decimal spelling of a number back as that
      number. */
  lemma NumberCellDecimal(n: nat)
    ensures NumberCell(Decimal(n)) == Some(n)
  {
    var d := Decimal(n);
    DecimalRoundTrip(n);
    DigitsFree(d);
    RemoveAbsentChar(d, ',');
    RemoveAbsentChar(d, '\n');
  }

  /** Wherever the value reader of `get_n_num` reads a cell, the parser of
      `get_net_incomes` reads it as the same value. */
  lemma NumberCellAgrees(raw: string)
    ensures NumberCell(raw).Some? ==> ParseAmount(raw) == NumberCell(raw)
  {
    var text := AmountText(raw);
    if IsDigits(text) {
      DigitsFree(text);
      RemoveAbsentChar(text, '(');
      RemoveAbsentChar(text, ')');
      StripStripped(text);
      assert text[0] != '(';
      ParseAmountBy(raw, text, text);
    }
  }

  /** A value-row cell with a space in its text (after the separators are
      removed) does not read as a number. */
  lemma NumberCellUnstripped(raw: string, k: nat)
    requires k < |AmountText(raw)| && AmountText(raw)[k] == ' '
    ensures NumberCell(raw).None?
  {
  }

  /** The cells `f` reads as `year`. */
  function ReadsAs(f: string -> Option<int>, year: int): string -> bool {
    s => f(s) == Some(year)
  }

  /** The column loop of `find_column_num` over one row from column `c`,
      with `count` numeric cells already passed: the count at the first
      cell that reads as `year`. */
  function YearFrom(f: string -> Option<int>, row: Row, year: int, c: nat, count: nat): Option<nat>
    requires c <= |row|
    decreases |row| - c
  {
    if c == |row| then None
    else match f(row[c])
      case None => YearFrom(f, row, year, c + 1, count)
      case Some(v) => if v == year then Some(count) else YearFrom(f, row, year, c + 1, count + 1)
  }

  /** The counted position is the number of numeric cells before the first
      cell that reads as the year; None when no cell does. */
  lemma {:induction false} YearFromSpec(f: string -> Option<int>, row: Row, year: int, c: nat, count: nat)
    requires c <= |row|
    ensures YearFrom(f, row, year, c, count) ==
            match FindInRow(row, ReadsAs(f, year), c)
            case None => None
            case Some(k) => Some(count + |Parsed(f, row[c..k])|)
    decreases |row| - c
  {
    if c < |row| {
      YearFromSpec(f, row, year, c + 1, count);
      YearFromSpec(f, row, year, c + 1, count + 1);
      match FindInRow(row, ReadsAs(f, year), c)
      case None =>
      case Some(k) =>
        if k > c {
          assert row[c..k][0] == row[c] && row[c..k][1..] == row[c + 1..k];
        } else {
          assert row[c..k] == [];
        }
    }
  }

  /** The row loop of `find_column_num` from row `i`: the first row with a
      cell reading as the year gives the answer. */
  function ColumnFrom(f: string -> Option<int>, t: Table, year: int, i: nat): Option<nat>
    requires i <= |t|
    decreases |t| - i
  {
    if i == |t| then None
    else match YearFrom(f, t[i], year, 0, 0)
      case Some(k) => Some(k)
      case None => ColumnFrom(f, t, year, i + 1)
  }

  /** The answer is the count of numeric cells before the year's first cell,
      in `find_all('td')` order, within that cell's row. */
  lemma {:induction false} ColumnFromSpec(f: string -> Option<int>, t: Table, year: int, i: nat)
    requires i <= |t|
    ensures ColumnFrom(f, t, year, i) ==
            match FindInTable(t, ReadsAs(f, year), i)
            case None => None
            case Some(a) => Some(|Parsed(f, t[a.row][..a.col])|)
    decreases |t| - i
  {
    if i < |t| {
      YearFromSpec(f, t[i], year, 0, 0);
      ColumnFromSpec(f, t, year, i + 1);
      match FindInRow(t[i], ReadsAs(f, year), 0)
      case None =>
      case Some(k) =>
        assert t[i][0..k] == t[i][..k];
    }
  }

  /** `find_column_num(year, table)`. */
  function ColumnNum(t: Table, year: int): Option<nat> {
    ColumnFrom(YearCell, t, year, 0)
  }

  /** `find_column_num` answers None exactly when no cell's normalised text
      is the year's digits; otherwise with the number of digit cells before
      a cell holding the year, in that cell's row. That it is the first such
      cell, row by row, is `ColumnFromSpec` with `FindInTable`'s contract. */
  lemma ColumnNumSpec(t: Table, year: int)
    ensures var r := ColumnNum(t, year);
            (r.None? <==> forall j, k :: 0 <= j < |t| && 0 <= k < |t[j]| ==> YearCell(t[j][k]) != Some(year))
            && (r.Some? ==> exists j, k :: 0 <= j < |t| && 0 <= k < |t[j]| && YearCell(t[j][k]) == Some(year)
                              && r.value == |Parsed(YearCell, t[j][..k])|)
  {
    ColumnFromSpec(YearCell, t, year, 0);
    var a := FindInTable(t, ReadsAs(YearCell, year), 0);
    if a.Some? {
      assert ReadsAs(YearCell, year)(t[a.value.row][a.value.col]);
    }
  }

  /** The cell loop of `get_n_num` over one row from column `c`, with
      `index` numeric cells already passed: the value of numeric cell `n`. */
  function NthFrom(f: string -> Option<int>, row: Row, n: nat, c: nat, index: nat): Option<int>
    requires c <= |row| && index <= n
    decreases |row| - c
  {
    if c == |row| then None
    else match f(row[c])
      case None => NthFrom(f, row, n, c + 1, index)
      case Some(v) => if index == n then Some(v) else NthFrom(f, row, n, c + 1, index + 1)
  }

  /** The loop picks element `n - index` of the numeric values from column
      `c` on, or gives None when there are not that many. */
  lemma {:induction false} NthFromSpec(f: string -> Option<int>, row: Row, n: nat, c: nat, index: nat)
    requires c <= |row| && index <= n
    ensures var vs := Parsed(f, row[c..]);
            NthFrom(f, row, n, c, index) == if n - index < |vs| then Some(vs[n - index]) else None
    decreases |row| - c
  {
    if c < |row| {
      assert row[c..][0] == row[c] && row[c..][1..] == row[c + 1..];
      NthFromSpec(f, row, n, c + 1, index);
      if index < n {
        NthFromSpec(f, row, n, c + 1, index + 1);
      }
    }
  }

  /** `get_n_num(n, cell)` on the cell's row. A missing column number
      (`None`) never equals a counter, so the loop runs out. */
  function NthNumber(n: Option<nat>, row: Row): Option<int> {
    match n
    case None => None
    case Some(k) => NthFrom(NumberCell, row, k, 0, 0)
  }

  /** `get_n_num` answers with the `n`-th value of the row's digit cells, in
      column order, or None when the row has no more than `n` of them. */
  lemma NthNumberSpec(n: Option<nat>, row: Row)
    ensures var vs := Parsed(NumberCell, row);
            NthNumber(n, row) == if n.Some? && n.value < |vs| then Some(vs[n.value]) else None
  {
    if n.Some? {
      NthFromSpec(NumberCell, row, n.value, 0, 0);
      assert row[0..] == row;
    }
  }

  /** scraper.py `find_net_income(year, tables)`: the first table with a net
      income cell decides, even when its lookup comes to nothing. */
  function FindNetIncomeForYear(year: int, tables: seq<Table>): Option<int> {
    match FindInTables(tables, [], ScraperAccept, 0)
    case None => None
    case Some(h) =>
      var t := tables[h.table];
      NthNumber(ColumnNum(t, year), t[h.anchor.row])
  }

  /** The cell the label search stops at in a table reads "Net income",
      and no cell before it in `find_all('td')` order does. */
  lemma FirstLabelCell(t: Table, a: Anchor)
    requires FindInTable(t, ScraperAccept, 0) == Some(a)
    ensures ValidAnchor(t, a) && CutCellText(t[a.row][a.col]) == "Net income"
    ensures forall j, k :: 0 <= j < |t| && 0 <= k < |t[j]| && (j < a.row || (j == a.row && k < a.col)) ==>
              CutCellText(t[j][k]) != "Net income"
  {
    ScraperAcceptIff(t[a.row][a.col]);
    forall j, k | 0 <= j < |t| && 0 <= k < |t[j]| && (j < a.row || (j == a.row && k < a.col))
      ensures CutCellText(t[j][k]) != "Net income"
    {
      ScraperAcceptIff(t[j][k]);
    }
  }

  /** A table where the label search finds nothing has no "Net income" cell. */
  lemma NoLabelCell(t: Table)
    requires FindInTable(t, ScraperAccept, 0).None?
    ensures forall j, k :: 0 <= j < |t| && 0 <= k < |t[j]| ==> CutCellText(t[j][k]) != "Net income"
  {
    forall j, k | 0 <= j < |t| && 0 <= k < |t[j]|
      ensures CutCellText(t[j][k]) != "Net income"
    {
      ScraperAcceptIff(t[j][k]);
    }
  }

  /** The table loop of `find_net_income`: no table is skipped, so the
      search finds nothing exactly when no table has a "Net income" cell, and
      every table before the one it finds has none. */
  lemma LabelTableSearch(tables: seq<Table>) returns (h: Option<Hit>)
    ensures h == FindInTables(tables, [], ScraperAccept, 0)
    ensures h.None? <==> forall i, j, k :: 0 <= i < |tables| && 0 <= j < |tables[i]| && 0 <= k < |tables[i][j]| ==>
                           CutCellText(tables[i][j][k]) != "Net income"
    ensures h.Some? ==> forall i, j, k :: 0 <= i < h.value.table && 0 <= j < |tables[i]| && 0 <= k < |tables[i][j]| ==>
                          CutCellText(tables[i][j][k]) != "Net income"
  {
    h := FindInTables(tables, [], ScraperAccept, 0);
    var end := if h.Some? then h.value.table else |tables|;
    forall i | 0 <= i < end
      ensures forall j, k :: 0 <= j < |tables[i]| && 0 <= k < |tables[i][j]| ==> CutCellText(tables[i][j][k]) != "Net income"
    {
      assert tables[i] !in [];
      NoLabelCell(tables[i]);
    }
    if h.Some? {
      FirstLabelCell(tables[h.value.table], h.value.anchor);
    }
  }

  /** Without a cell reading exactly "Net income" there is no answer; with
      one, the answer is read from the row of the first such cell, in
      `find_all('td')` order, of the first table holding one, at the position
      `find_column_num` gives for that table. */
  lemma FindNetIncomeForYearSpec(year: int, tables: seq<Table>) returns (h: Option<Hit>)
    ensures h.None? ==> FindNetIncomeForYear(year, tables).None?
    ensures h.None? <==> forall i, j, k :: 0 <= i < |tables| && 0 <= j < |tables[i]| && 0 <= k < |tables[i][j]| ==>
                           CutCellText(tables[i][j][k]) != "Net income"
    ensures h.Some? ==> h.value.table < |tables| && ValidAnchor(tables[h.value.table], h.value.anchor)
                        && CutCellText(tables[h.value.table][h.value.anchor.row][h.value.anchor.col]) == "Net income"
    ensures h.Some? ==> forall i, j, k :: 0 <= i < h.value.table && 0 <= j < |tables[i]| && 0 <= k < |tables[i][j]| ==>
                          CutCellText(tables[i][j][k]) != "Net income"
    ensures h.Some? ==> var t := tables[h.value.table];
                        forall j, k :: 0 <= j < |t| && 0 <= k < |t[j]|
                                       && (j < h.value.anchor.row || (j == h.value.anchor.row && k < h.value.anchor.col)) ==>
                          CutCellText(t[j][k]) != "Net income"
    ensures h.Some? ==> var t := tables[h.value.table];
                        var vs := Parsed(NumberCell, t[h.value.anchor.row]);
                        var col := ColumnNum(t, year);
                        FindNetIncomeForYear(year, tables) ==
                          if col.Some? && col.value < |vs| then Some(vs[col.value]) else None
  {
    h := LabelTableSearch(tables);
    if h.Some? {
      var t := tables[h.value.table];
      FirstLabelCell(t, h.value.anchor);
      NthNumberSpec(ColumnNum(t, year), t[h.value.anchor.row]);
    }
  }
}
