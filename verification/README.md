# SEC net-income scraper: a Dafny model of its extraction heuristics

This project models the heuristic fact extraction of the net-income scraper
in Dafny. The scraper reads a company's 10-K filings from the SEC's EDGAR
index and pulls the "net income" figure for each fiscal year out of the
filing documents' HTML tables. A second reader, for Yahoo Finance statement
pages, is modelled too.

The model works on an abstract document with no HTML and no network:

- A table is a sequence of rows (`tr`), and a row is a sequence of cell
  texts (`td`, the `get_text()` string).
- An anchor names a cell by row and column.
- `find_all('td')` order is row by row, left to right.

The model covers:

- **Text normalisation** (`Normalize`). Both `get_cell_text` variants and
  `get_useable_text`.
- **Year window and year-row locator** (`Years`). `is_valid_year`, and
  `get_all_income_years` with its `break` on a failed date re-parse.
- **Per-cell amount parser** (`Amounts`). The parser inside
  `get_net_incomes`, and the value row it builds.
- **Label lookup and retry loop** (`Extraction`). `find_net_income(tables, skip)`
  and the `skip_tables` retry loop of `get_all_net_incomes`.
- **Count reconciliation** (`Reconcile`). Equal counts, the four-quarter
  fold, and the `zip` truncation.
- **Filing filter** (`Filings`). The filter of `get_links`, with `is_ammend`.
- **Year-to-value merge** (`Assembler`). The merge of `get_past_net_income`,
  across all kept filings.
- **Column lookup of scraper.py** (`Scraper`). `find_column_num`, `get_n_num`
  and `find_net_income(year, tables)`.
- **Statement-table reader of yahoo.py** (`Yahoo`). `parse_soup_table` and
  `get_value`.

`PyStr` models the Python string built-ins used:

- `str.strip` (with `str.isspace` by code point).
- `str.replace` of one character.
- `str.split('(')[0]`.
- `str.isdigit` and `int`, for ASCII digits.

`Tables` holds the cell searches shared by several modules. `Wrappers`
holds `Option`/`Result`. A caught `TypeError` or `IndexError` is modelled as
None, and the exceptions yahoo.py lets escape are modelled as `Failure`.

The following are parameters:

- The current year. The source fixes `this_year = 2018`.
- The date parser, `dateutil.parser.parse` (a year, or None for `ValueError`).
- Document fetching.
- The per-document extraction.

The main loops are `method`s, each proved equal to a recursive reference
definition about which the properties are stated: the retry loop
(`Extraction.RetryLoop`), the quarter fold (`Reconcile.FoldQuarters`),
`get_all_net_incomes` (`Reconcile.GetAllNetIncomes`), `get_links`
(`Filings.GetLinks`), `get_past_net_income` (`Assembler.GetPastNetIncome`)
and the two scans of `get_all_income_years` (`Years.ScanRowYears`,
`Years.ScanIncomeYears`). The other loops are modelled only as recursive
functions: both `find_net_income`s, `get_net_incomes`, `find_column_num`,
`get_n_num`, `parse_soup_table`, `get_value`, and the `temp_dict` zip and
key merge of `get_past_net_income`.

### Where the code behaves unexpectedly

The model follows the code in each case below.

- **The label test of netIncome.py `find_net_income` is always true.** Its
  last disjunct is a non-empty string literal (netIncome.py:173). The lookup
  therefore returns the first cell of the first table that has a cell and is
  not skipped (`Extraction.FindNetIncomeFirstCell`). Values are read from
  that cell's row: the table's first row with cells, wherever the
  "Net income" label is (`Reconcile.SingleTableReadsFirstRow`).
  - Take a table with a row of years `2015 2016` on top of a row
    `Net income | 100 | (50)`. It yields the years `[2015, 2016]` and reads
    the *year row* back as the values `[2015, 2016]`, not `[100, -50]`.
  - The same table with the value row on top gives `[100, -50]`.
- **The sign is read before the text is stripped.** `" (50)"` parses to
  `+50` (`Amounts.LeadingSpaceKeepsSign`).
- **The retry loop gives up when it has consumed every table.** When every
  table has been skipped (`len(skip_tables) == len(tables)`), it returns None.
  This happens even if the last table it looked at has a year row
  (`Extraction.RetryGivesUp`). `Extraction.ChooseTable` gives the outcome in
  closed form.
- **One failing filing ends the whole ticker with None.** A document without
  a "Document Format Files" listing (`IndexError`) does this. So does an
  extraction that returns None: unpacking None raises `TypeError`. A failing
  filing would be expected to skip only that filing
  (`Assembler.CollectFailsAt`).
- **An empty list of kept links gives None.** `years[0]` raises `IndexError`.
  The fiscal-year shift that follows it has no effect, because the loop
  rebinds `years`.
- **A filing dated on or before 2008-01-01 does not advance the counter.**
  This counter picks both the summary row and the link. Every later filing is
  therefore paired with an earlier filing's link and summary row
  (`Filings.OldFilingShiftsLinks`).
- **scraper.py's `"Net income (loss)"` label can never match.** Its
  normalisation has already cut the text at `(` (`Scraper.ScraperAcceptIff`).

## Model

| member | source | states |
|---|---|---|
| Normalize.CellText | netIncome.py:247-258 | the normalised text has no newline and no leading or trailing whitespace; its characters come from the cell, and every non-whitespace character of the cell is kept |
| Normalize.CellTextInfix | netIncome.py:247-258 | the normalised text is the newline-free text with whitespace, and only whitespace, cut from its two ends |
| Normalize.CellTextIdempotent | netIncome.py:247-258 | normalising a normalised text changes nothing |
| Normalize.CutCellText | scraper.py:103-111 | the scraper normalisation has no newline, no `(`, and no surrounding whitespace; its characters come from the cell, and every non-whitespace character before the first `(` is kept |
| Normalize.CutCellTextInfix | scraper.py:103-111 | the scraper text is the newline-free text before its first `(`, with whitespace, and only whitespace, cut from its two ends |
| Normalize.CutCellTextIdempotent | scraper.py:103-111 | the scraper normalisation is idempotent |
| Normalize.UseableText | netIncome.py:261-264 | the result is the prefix of the text before its first `(`, or the whole text when it has none; it contains no `(` |
| Normalize.UseableTextIdempotent | scraper.py:114-117 | cutting at `(` twice is cutting once |
| Normalize.UseableTextOfCut | scraper.py:95-96 | `get_useable_text` leaves a scraper-normalised text unchanged |
| Years.ValidYearWindow2018 | netIncome.py:110-111 | with `this_year = 2018`, exactly the years 2008 through 2017 are valid; 2018 and 2007 are not |
| Years.IsValidYear | netIncome.py:110-111 | no ensures; `Years.ValidYearWindow2018` states the window |
| Years.YearToken | netIncome.py:189-192 | the token tested as a year has no `(` and no newline; the second cut at `(` changes nothing |
| Years.ClassifyCell | netIncome.py:193-206 | a reported year is always in the window; a digit cell is a year exactly when its value is in the window; a non-digit text that is not a date is not a year; a date's year is re-read from the text with `, ` for `,` and reported when in the window; a parse error happens exactly when `is_date` accepts the text and the re-read raises |
| Years.YearClassifierWithinWindow | netIncome.py:193-204 | the cell classifier of `get_all_income_years` only reports valid years |
| Years.ClassifyRow | netIncome.py:187-189 | the row's classification has one entry per cell, in column order |
| Years.TakeYearsValid | netIncome.py:193-204 | every year taken from a classified row passes `is_valid_year` |
| Years.TakeYearsAppend | netIncome.py:188-206 | cells before a parse error contribute their years in column order; nothing after a parse error counts |
| Years.TakeYearsStep | netIncome.py:193-204 | one cell extends the years taken so far by its own year, if it has one |
| Years.TakeYearsStop | netIncome.py:205-206 | leaving the cell loop by exhaustion or by `break` has taken all the years the row yields |
| Years.RowYearsWithinWindow | netIncome.py:187-206 | a row's years all lie in the window of the classifier |
| Years.IncomeYears | netIncome.py:180-207 | the result is empty iff no row yields a year; otherwise it is the years of one row, and every earlier row yields none |
| Years.IncomeYearsValid | netIncome.py:180-207 | every year `get_all_income_years` returns passes `is_valid_year` |
| Years.ScanRowYears | netIncome.py:187-206 | the cell loop, with its `break`, computes the row's years |
| Years.ScanIncomeYears | netIncome.py:180-207 | the row loop, with its `found_year_row` flag, computes the table's years |
| Amounts.ParseAmount | netIncome.py:217-229 | no ensures; see `Amounts.ParseAmountSign`, `Amounts.ParseAmountDecimal` and `Amounts.ParseAmountParenthesized` |
| Amounts.ParseAmountSign | netIncome.py:217-229 | a cell parses iff its cleaned text is a digit string; the value is plus or minus that number; a negative value needs a leading `(` before the strip, and a leading `(` gives a value of at most 0 |
| Amounts.ParseAmountRejectsText | netIncome.py:224-227 | a character other than a digit, `,`, `(`, `)` or whitespace makes the cell non-numeric (a label such as "Net income" is skipped) |
| Amounts.ParseAmountDecimal | netIncome.py:217-229 | the decimal spelling of n parses to n |
| Amounts.ParseAmountParenthesized | netIncome.py:220-229 | `(` + spelling of n + `)` parses to -n |
| Amounts.LeadingSpaceKeepsSign | netIncome.py:220-226 | ` (` + spelling of n + `)` parses to +n: the sign is read before the strip |
| Amounts.ParseAmountOfText | netIncome.py:217-219 | two cells with the same text after `,` and newlines are removed parse alike |
| Amounts.ParseAmountIgnoresSeparators | netIncome.py:218-219 | a `,` or a newline inside a cell does not change its value |
| Amounts.AmountTextIgnoresSeparators | netIncome.py:218-219 | removing `,` and newlines erases an inserted separator |
| Amounts.ParseAmountExample | netIncome.py:217-229 | `(1,234)` parses to -1234 |
| Amounts.Parsed | netIncome.py:214-230 | the parsed values of a row are never more than its cells |
| Amounts.ParsedMembers | netIncome.py:216-229 | every parsed cell's value is in the result, and every value in the result comes from a parsed cell |
| Amounts.ParsedAppend | netIncome.py:216-229 | column order: the values of a split row are the values of the left part followed by those of the right part |
| Amounts.RowAmountsMembers | netIncome.py:214-230 | the value row holds exactly the values of the cells that parse |
| Amounts.RowAmounts | netIncome.py:215-230 | the cell loop of `get_net_incomes` over one row: no more values than cells; see `Amounts.RowAmountsMembers` for which values |
| Amounts.NetIncomes | netIncome.py:210-230 | `get_net_incomes` from an anchor cell: the values of its row, no more than its cells; see `Amounts.RowAmountsMembers` |
| Extraction.EveryCellAccepted | netIncome.py:173 | the label test accepts every cell, whatever its text |
| Tables.FindInTables | netIncome.py:166-174 | the search of both `find_net_income`s (scraper.py:77-81 as well): a hit lies in a table not in `skip`, at that table's first accepted cell in `find_all('td')` order, and every earlier table is skipped or has no accepted cell; None iff every table is |
| Extraction.FindNetIncome | netIncome.py:166-177 | a hit lies in a table not in `skip` |
| Extraction.FindInTableAll | netIncome.py:170-174 | with a test that accepts everything, a table's first hit is the first cell of its first row with cells; a table without cells has none |
| Extraction.FindNetIncomeFirstCell | netIncome.py:166-177 | the lookup returns the first cell of the first table that is not skipped and has a cell; it returns None iff every table is skipped or has no cell |
| Extraction.CandidatesMembers | netIncome.py:129-134 | the tables the retry loop can visit are exactly the tables with a cell |
| Extraction.CandidatesFull | netIncome.py:135 | the loop can visit as many tables as the document has iff the tables are distinct and each has a cell |
| Extraction.FirstYearTable | netIncome.py:128-136 | the first table with a cell and a year row; every earlier table lacks one or the other |
| Extraction.ChooseTable | netIncome.py:125-136 | the retry loop's outcome lies in a real table with a valid anchor and non-empty years, namely that table's years; with no table having years it is None |
| Extraction.RetryExhausted | netIncome.py:131-136 | the loop ends with None when it runs out of tables |
| Extraction.RetryGivesUp | netIncome.py:135-136 | when `skip_tables` reaches the number of tables, the loop gives up, even when the last table has years |
| Extraction.RetryFound | netIncome.py:131-137 | a year row found before the tables run out is the closed form's answer |
| Extraction.RetryLoop | netIncome.py:128-136 | the `skip_tables` loop computes the closed form `ChooseTable`; it ends because every lookup adds a new table to `skip_tables` |
| Extraction.LocateYearTable | netIncome.py:125-136 | the lookup-then-retry of `get_all_net_incomes` computes the closed form for its year scanner |
| Reconcile.QuarterSums | netIncome.py:139-150 | folding gives one value per whole group of four |
| Reconcile.QuarterSumsElement | netIncome.py:139-150 | the k-th folded value is the sum of values 4k to 4k+3 |
| Reconcile.QuarterSumsTotal | netIncome.py:139-150 | folding a whole number of groups keeps the total |
| Reconcile.FoldQuarters | netIncome.py:140-150 | the running-sum loop computes the grouped sums and drops a trailing partial group |
| Reconcile.Reconcile | netIncome.py:138-161 | None iff the counts differ and one list is empty; equal counts pass through unchanged; outside the equal and 4× cases both lists are cut to the shorter length (`zip`); in the 4× case there is one value per year and the total is kept |
| Reconcile.ReconcileQuarters | netIncome.py:139-150 | in the 4× case each yearly value is the sum of its four quarters |
| Reconcile.AllNetIncomes | netIncome.py:123-163 | a result has as many values as years, and at least one year; no table with years means None |
| Reconcile.SingleTableReadsFirstRow | netIncome.py:125-137 | in a one-table document the values come from the table's first row with cells, wherever the label is |
| Reconcile.AllNetIncomesWithin | netIncome.py:128-134 | the returned years lie in any window the year classifier keeps to |
| Reconcile.AllNetIncomesYears | netIncome.py:123-163 | every returned year passes `is_valid_year` |
| Reconcile.GetAllNetIncomes | netIncome.py:123-163 | the procedure with its loops computes `AllNetIncomes` |
| Filings.IsAmendment | netIncome.py:99-107 | None iff summary row `index + 1` does not exist; true iff that row's type contains `A` |
| Filings.FilterFilings | netIncome.py:86-96 | no ensures; see `Filings.FilterFilingsFails` and `Filings.GetLinks` |
| Filings.FilterFrom | netIncome.py:89-95 | no ensures; the date loop from one filing on; see `Filings.FilterFromShape`, `Filings.FilterFromFails`, `Filings.FilterFromAllKept` and `Filings.GetLinks` |
| Filings.FilterFromShape | netIncome.py:89-96 | kept links and years pair up, and every kept year is 2008 or later |
| Filings.FilterFromFails | netIncome.py:89-103 | the filter fails iff some filing after the cutoff finds no summary row for the counter |
| Filings.FilterFilingsFails | netIncome.py:89-103 | `get_links` fails iff there is a filing after the cutoff and at least as many of them as summary rows; otherwise links and years pair up |
| Filings.FilterFromAllKept | netIncome.py:89-96 | with every filing after the cutoff and no amendment, every filing is kept with its own link and year, in order |
| Filings.AmendmentExcluded | netIncome.py:99-107 | a filing typed `10-K/A` is excluded and one typed `10-K` is kept |
| Filings.OldFilingShiftsLinks | netIncome.py:86-96 | an old filing does not advance the counter, so the next filing's year is paired with the old filing's link |
| Filings.GetLinks | netIncome.py:86-96 | the date loop computes the recursive filter |
| Assembler.ZipPrefixSpec | netIncome.py:320-321 | `temp_dict`'s keys are the zipped years, and a repeated year holds the value of its last occurrence |
| Assembler.InsertDesc | netIncome.py:322-323 | insertion keeps the key list strictly decreasing and adds exactly the new key |
| Assembler.SortedDesc | netIncome.py:322-323 | the keys visited are each year once, newest first |
| Assembler.SortedKeysInZip | netIncome.py:320-323 | every key the merge visits is a key of `temp_dict` |
| Assembler.MergeKeys | netIncome.py:323-327 | no ensures; see `Assembler.MergeKeysSpec` |
| Assembler.MergeKeysSpec | netIncome.py:323-327 | first writer wins: years already present keep their values, new years take the filing's value, and the run ends exactly when the target year is new in this filing |
| Assembler.MergeKeysStopsAtTarget | netIncome.py:323-327 | with keys newest first, an early end has added exactly the new years from the target year upward |
| Assembler.Collect | netIncome.py:310-328 | no ensures; the link loop as a fold of one filing's step; see `Assembler.CollectEnded`, `Assembler.CollectFailsAt`, `Assembler.CollectKeeps` and `Assembler.GetPastNetIncome` |
| Assembler.CollectEnded | netIncome.py:326-327 | after the early return or a failure, later links change nothing |
| Assembler.CollectFailsAt | netIncome.py:311-319 | a link whose document or extraction fails, reached while running, makes the whole result a failure |
| Assembler.StepKeeps | netIncome.py:323-325 | one filing never overwrites a year already collected |
| Assembler.StepDoneAddsTarget | netIncome.py:324-327 | the run ends only on a filing that newly adds the target year |
| Assembler.CollectKeeps | netIncome.py:310-328 | across the whole run, a collected year keeps its first value |
| Assembler.PastNetIncome | netIncome.py:299-332 | no ensures; see `Assembler.CollectKeeps`, `Assembler.CollectFailsAt` and `Assembler.GetPastNetIncome` |
| Assembler.GetPastNetIncome | netIncome.py:299-332 | the procedure, with its early returns, computes the fold over the kept links |
| Assembler.MergeExample | netIncome.py:320-327 | `{2016: 100}` merged with a filing's `{2016: 999, 2015: 50}` gives `{2016: 100, 2015: 50}` |
| Scraper.ScraperAcceptIff | scraper.py:82-83 | the `Net income (loss)` label can never match; a cell is accepted iff its normalised text is `Net income` |
| Scraper.YearCell | scraper.py:95-97 | a year-row cell reads, if at all, as a non-negative number; see `Scraper.YearCellDecimal` |
| Scraper.YearCellDecimal | scraper.py:95-98 | a year cell holding the decimal spelling of a number reads as that number |
| Scraper.NumberCell | scraper.py:127-131 | a value-row cell reads, if at all, as a non-negative number; see `Scraper.NumberCellDecimal`, `Scraper.NumberCellAgrees` and `Scraper.NumberCellUnstripped` |
| Scraper.NumberCellDecimal | scraper.py:127-132 | a value cell holding the decimal spelling of a number reads as that number |
| Scraper.NumberCellAgrees | scraper.py:127-132 | every cell `get_n_num` reads as a number, the `get_net_incomes` parser of netIncome.py reads as the same number |
| Scraper.NumberCellUnstripped | scraper.py:127-130 | a value cell with a space in its text does not read as a number, because the text is not stripped |
| Scraper.YearFromSpec | scraper.py:93-100 | the column loop answers with the number of digit cells before the first cell that reads as the year, or None |
| Scraper.ColumnFromSpec | scraper.py:89-100 | the row loop answers for the first cell, in row-by-row order, that reads as the year |
| Scraper.ColumnNum | scraper.py:89-100 | no ensures; see `Scraper.ColumnNumSpec` |
| Scraper.ColumnNumSpec | scraper.py:89-100 | None iff no cell holds the year; otherwise the count of digit cells before some year cell in its row (the first such cell is `Scraper.ColumnFromSpec`) |
| Scraper.NthFromSpec | scraper.py:125-134 | the cell loop picks the given element of the row's numeric values, or None when there are not that many |
| Scraper.NthNumber | scraper.py:120-134 | no ensures; see `Scraper.NthNumberSpec` |
| Scraper.NthNumberSpec | scraper.py:120-134 | `get_n_num` gives the n-th numeric value of the row, or None when n is None or the row has too few |
| Scraper.FindNetIncomeForYear | scraper.py:78-86 | no ensures; see `Scraper.FindNetIncomeForYearSpec` |
| Scraper.FindNetIncomeForYearSpec | scraper.py:78-86 | no `Net income` cell means None; otherwise the first such cell in `find_all('td')` order, in the first table holding one, decides, with the value at the year's column position among its row's numbers |
| Yahoo.AssignRowKeys | yahoo.py:88-95 | a row adds the keys (label, heading) of its columns after the first |
| Yahoo.AssignRowLast | yahoo.py:94 | a key holds the text of the last column written under it |
| Yahoo.AssignRowKeeps | yahoo.py:94 | keys the row does not write keep their values |
| Yahoo.BodyFromFails | yahoo.py:87-95 | the rows fail, with `IndexError`, iff one with more than one cell is wider than the header |
| Yahoo.BodyFromKeys | yahoo.py:87-95 | the keys are those before plus those the rows write |
| Yahoo.BodyFromUntouched | yahoo.py:87-95 | a key no row writes keeps its value |
| Yahoo.BodyFromLast | yahoo.py:87-95 | a key holds the text of its last write in reading order |
| Yahoo.ParseSoupTable | yahoo.py:74-96 | no ensures; see `Yahoo.ParseSoupTableSpec` |
| Yahoo.ParseSoupTableSpec | yahoo.py:74-96 | `StopIteration` iff the header row is empty; `IndexError` iff a row is wider than the header; otherwise the headings are the header's cells after the first, the keys are exactly the written pairs, each holds its last write, and every key's year is a heading |
| Yahoo.ValuesUpToSpec | yahoo.py:46-49 | the loop fails, with `KeyError`, iff some year's key is missing; otherwise its keys are the years seen, each with its entry |
| Yahoo.GetValue | yahoo.py:45-50 | no ensures; see `Yahoo.GetValueSpec` and `Yahoo.ParseThenGetValue` |
| Yahoo.GetValueSpec | yahoo.py:45-50 | `get_value` succeeds iff every year has an entry; its keys are then exactly the years, each with the entry for the label |
| Yahoo.ParseThenGetValue | yahoo.py:45-50 | with distinct headings and a label used by one full-width row only, `get_value` after `parse_soup_table` gives back that row's cells under their headings |

## Left out

- Network access and document resolution are left out because they are I/O. This covers `requests.get`, URL building, `get_document`, `get_soup` and `get_tables`. A document's table list is a parameter `fetch(link)`, which is None where the "Document Format Files" listing is missing.
- BeautifulSoup parsing is left out. It includes the `.next_sibling` chain to the filing date and the ascent from a cell to its `tr`. Cells are the `get_text()` strings of an abstract row.
- A cell's fallback to `cell.contents[0].get_text()` is not modelled, because it cannot change the text. An empty cell's first child has no more text than the cell itself.
- The `AttributeError` path of `get_cell_text` is not modelled, because every cell of the abstract table has a text.
- `dateutil.parser.parse` is left out because it is a foreign library. It is a function parameter, and `is_date` is "parse gives a year".
- The regex and `strptime` extraction of filing dates is left out. Filings carry their parsed `Date`.
- `str.isdigit` and `int` accept only ASCII digits here. Python's `isdigit` also accepts other Unicode digits, among them non-decimal ones such as "²"; for those `int` raises `ValueError`, which neither the year scan (netIncome.py:193-194) nor the amount parser (netIncome.py:227-228) catches, so the whole run ends with that exception. That escape is not modelled.
- `tables is None` in `get_past_net_income` is not modelled, because `find_all` never returns None.
- The fiscal-year shift in `get_past_net_income` is not modelled, because its result is never read. `Assembler.PastNetIncome` only checks that the kept year list is non-empty.
- `find_doc_year` is left out because it has no effect and returns None.
- `update_all_values` of yahoo.py is left out because it only calls `get_value` with fixed labels. `get_tables` is I/O (above): it fetches three pages, parses each statement table, and returns the balance sheet's headings as the `years` used for all three statements; that choice of headings is not modelled.
- The copies of `get_links` and `is_ammend` in scraper.py are modelled once, from netIncome.py.
- aggregator.py and the top-level script code are left out, because they are file I/O and orchestration.
- Yahoo.ParseSoupTableSpec: the map is stated through each key's last write in reading order, without a separate lemma for the order in which Python's dict keeps keys. That order is not observable through `get_value`.
- Extraction.ChooseTable: membership in `skip_tables` compares cell texts only. BeautifulSoup's `Tag.__eq__` also compares tag names, attributes and non-`td` content, so two tables that differ only in markup are one table here (skipped together) but two in the source (where the retry loop can give up on `len(skip_tables) == len(tables)` instead). Markup is not part of the abstract table.
- Assembler.GetPastNetIncome: the result is a `map`, without the insertion order of the returned dict (newest filing first, each filing's years in descending order). The keys and their values are modelled; the order is not.
- Scraper.FindNetIncomeForYearSpec: when a matching label cell has no `tr` ancestor, the source's ascent raises `AttributeError`, which is not modelled. In the abstract table every cell sits in a row.
