/** The table search of netIncome.py: the label test and `find_net_income`,
    and the retry loop of `get_all_net_incomes` that passes over tables
    without a year row (`skip_tables`).

    The label test ends in a bare non-empty string literal, which Python
    reads as true; so every cell is accepted, and the search returns the
    first cell of the first table that is not skipped and has a cell. */
module Extraction {
  import opened Wrappers
  import opened Normalize
  import opened Tables
  import opened Years

  /** The last alternative of the label test, used as a condition on its own. */
  const OperationsLabel := "Net decrease in net assets resulting from operations"

  /** The label condition of `find_net_income`, as written: five comparisons
      and a non-empty string literal, which is true. */
  predicate IsNetIncomeLabel(text: string) {
    text == "Net income" || text == "Net income (loss)" || text == "Net earnings"
    || text == "Net loss" || text == "Net (loss) income" || |OperationsLabel| > 0
  }

  /** The cell test of `find_net_income`: the label test on `get_cell_text`. */
  predicate NetIncomeAccept(raw: string) {
    IsNetIncomeLabel(CellText(raw))
  }

  /** Every cell passes the label test, whatever its text: one that is not
      "Net income" as much as one that is. */
  lemma {:induction false} EveryCellAccepted(raw: string)
    ensures NetIncomeAccept(raw)
  {
    assert |OperationsLabel| > 0;
  }

  /** `find_net_income(tables, skip)`: the table index and the anchor cell. */
  function FindNetIncome(tables: seq<Table>, skip: seq<Table>): (r: Option<Hit>)
    ensures r.Some? ==> r.value.table < |tables| && tables[r.value.table] !in skip
  {
    FindInTables(tables, skip, NetIncomeAccept, 0)
  }

  /** A search whose test admits every cell finds the first cell of the
      first row that has one, and nothing in a table without cells. */
  lemma FindInTableAll(t: Table, accept: string -> bool)
    requires forall s :: accept(s)
    ensures HasCell(t) ==> FindInTable(t, accept, 0) == Some(Anchor(FirstNonEmptyRow(t), 0))
    ensures !HasCell(t) ==> FindInTable(t, accept, 0) == None
  {
    var r := FindInTable(t, accept, 0);
    forall j | 0 <= j < |t|
      ensures (forall k :: 0 <= k < |t[j]| ==> !accept(t[j][k])) ==> t[j] == []
    {
      if t[j] != [] {
        assert accept(t[j][0]);
      }
    }
    if r.Some? {
      var a := r.value;
      assert accept(t[a.row][0]);
      var f := FirstNonEmptyRow(t);
      assert f == a.row;
    }
  }

  /** `find_net_income` returns the first cell of the first table, in
      document order, that is not in `skip` and has a cell; and None exactly
      when every table is skipped or has no cell. */
  lemma FindNetIncomeFirstCell(tables: seq<Table>, skip: seq<Table>)
    ensures var r := FindNetIncome(tables, skip);
            r.Some? ==> var j := r.value.table;
              HasCell(tables[j]) && r.value.anchor == Anchor(FirstNonEmptyRow(tables[j]), 0)
              && forall k :: 0 <= k < j ==> tables[k] in skip || !HasCell(tables[k])
    ensures FindNetIncome(tables, skip).None? <==>
            forall k :: 0 <= k < |tables| ==> tables[k] in skip || !HasCell(tables[k])
  {
    forall s ensures NetIncomeAccept(s) {
      EveryCellAccepted(s);
    }
    forall k | 0 <= k < |tables|
      ensures HasCell(tables[k]) <==> FindInTable(tables[k], NetIncomeAccept, 0).Some?
      ensures HasCell(tables[k]) ==> FindInTable(tables[k], NetIncomeAccept, 0) == Some(Anchor(FirstNonEmptyRow(tables[k]), 0))
    {
      FindInTableAll(tables[k], NetIncomeAccept);
    }
  }

  /** Tables that have a cell, each value once, in order of first occurrence:
      the `skip_tables` list after the search has visited a prefix. */
  function Candidates(ts: seq<Table>): (r: seq<Table>)
    ensures |r| <= |ts|
  {
    if ts == [] then []
    else
      var c := Candidates(ts[..|ts| - 1]);
      var x := ts[|ts| - 1];
      if HasCell(x) && x !in c then c + [x] else c
  }

  /** The candidates are exactly the tables that have a cell. */
  lemma {:induction false} CandidatesMembers(ts: seq<Table>)
    ensures forall x :: x in Candidates(ts) <==> x in ts && HasCell(x)
  {
    if ts != [] {
      var p := ts[..|ts| - 1];
      CandidatesMembers(p);
      assert ts == p + [ts[|ts| - 1]];
      assert forall x :: x in ts <==> x in p || x == ts[|ts| - 1];
    }
  }

  predicate AllHaveCells(ts: seq<Table>) {
    forall j :: 0 <= j < |ts| ==> HasCell(ts[j])
  }

  /** There are as many candidates as tables exactly when the tables are
      pairwise distinct and every one has a cell. */
  lemma {:induction false} CandidatesFull(ts: seq<Table>)
    ensures |Candidates(ts)| == |ts| <==> AllDistinct(ts) && AllHaveCells(ts)
  {
    if ts != [] {
      var p := ts[..|ts| - 1];
      var x := ts[|ts| - 1];
      CandidatesFull(p);
      CandidatesMembers(p);
      assert forall j :: 0 <= j < |p| ==> p[j] == ts[j];
      if |Candidates(ts)| == |ts| {
        assert x !in p;
        forall i, j | 0 <= i < j < |ts| ensures ts[i] != ts[j] {
          if j == |ts| - 1 {
            assert ts[i] == p[i];
          } else {
            assert ts[i] == p[i] && ts[j] == p[j];
          }
        }
      }
      if AllDistinct(ts) && AllHaveCells(ts) {
        assert AllDistinct(p) && AllHaveCells(p);
        assert forall i :: 0 <= i < |p| ==> p[i] == ts[i] && ts[i] != ts[|ts| - 1];
        assert x !in p;
      }
    }
  }

  /** One more table visited: it joins the candidates when it has a cell and
      is not already among them. */
  lemma CandidatesStep(ts: seq<Table>, k: nat)
    requires k < |ts|
    ensures Candidates(ts[..k + 1]) ==
            if HasCell(ts[k]) && ts[k] !in Candidates(ts[..k]) then Candidates(ts[..k]) + [ts[k]]
            else Candidates(ts[..k])
  {
    assert ts[..k + 1][..k] == ts[..k];
  }

  /** Tables that are already candidates or have no cell leave the
      candidates unchanged. */
  lemma {:induction false} CandidatesSkip(ts: seq<Table>, a: nat, b: nat)
    requires a <= b <= |ts|
    requires forall j :: a <= j < b ==> ts[j] in Candidates(ts[..a]) || !HasCell(ts[j])
    ensures Candidates(ts[..b]) == Candidates(ts[..a])
    decreases b - a
  {
    if a < b {
      CandidatesSkip(ts, a, b - 1);
      CandidatesStep(ts, b - 1);
    }
  }

  /** The years a table yields, as a function of the table. */
  type YearsOf = Table -> seq<int>

  /** The years `get_all_income_years` reads from a table. */
  function TableYears(classify: Classifier): YearsOf {
    t => IncomeYears(classify, t)
  }

  /** The first table with a cell whose years are non-empty, from index `i`. */
  function FirstYearTable(yearsOf: YearsOf, tables: seq<Table>, i: nat): (r: Option<nat>)
    requires i <= |tables|
    ensures r.Some? ==> i <= r.value < |tables| && HasCell(tables[r.value]) && yearsOf(tables[r.value]) != []
    ensures r.Some? ==> forall j :: i <= j < r.value ==> !HasCell(tables[j]) || yearsOf(tables[j]) == []
    ensures r.None? ==> forall j :: i <= j < |tables| ==> !HasCell(tables[j]) || yearsOf(tables[j]) == []
    decreases |tables| - i
  {
    if i == |tables| then None
    else if HasCell(tables[i]) && yearsOf(tables[i]) != [] then Some(i)
    else FirstYearTable(yearsOf, tables, i + 1)
  }

  /** Where the retry loop settles: the table index, the anchor cell the
      values are read beside, and the table's years. */
  datatype Located = Located(table: nat, anchor: Anchor, years: seq<int>)

  /** The outcome of the retry loop in closed form. The first table with
      years is chosen, except when the loop had to visit every table to
      reach it: then `len(skip_tables) == len(tables)` fires after the last
      lookup and the loop gives up, although that table has years. */
  function ChooseTable(yearsOf: YearsOf, tables: seq<Table>): (r: Option<Located>)
    ensures r.Some? ==> r.value.table < |tables| && ValidAnchor(tables[r.value.table], r.value.anchor)
    ensures r.Some? ==> r.value.years != [] && r.value.years == yearsOf(tables[r.value.table])
    ensures FirstYearTable(yearsOf, tables, 0).None? ==> r.None?
  {
    match FirstYearTable(yearsOf, tables, 0)
    case None => None
    case Some(i) =>
      if 2 <= |tables| && i == |tables| - 1 && AllDistinct(tables) && AllHaveCells(tables) then None
      else Some(Located(i, Anchor(FirstNonEmptyRow(tables[i]), 0), yearsOf(tables[i])))
  }

  /** The table, anchor and years `get_all_net_incomes` settles on. */
  function YearTable(classify: Classifier, tables: seq<Table>): Option<Located> {
    ChooseTable(TableYears(classify), tables)
  }

  /** What the retry loop keeps while it stands on table `h`: `skip` holds
      the candidates of the tables up to `h`, ending with table `h`, and
      every earlier entry has no years. */
  predicate RetryState(yearsOf: YearsOf, tables: seq<Table>, skip: seq<Table>, h: nat) {
    h < |tables| && HasCell(tables[h])
    && 1 <= |skip| <= |tables| && skip[|skip| - 1] == tables[h]
    && skip == Candidates(tables[..h + 1])
    && skip[..|skip| - 1] == Candidates(tables[..h])
    && forall k :: 0 <= k < |skip| - 1 ==> yearsOf(skip[k]) == []
  }

  /** One lookup of the loop: with `skip` the candidates of the first `done`
      tables, the next table found lies at or after `done`, and adding it
      makes `skip` the candidates of the tables up to and including it. */
  lemma RetryStep(tables: seq<Table>, skip: seq<Table>, done: nat)
    requires done <= |tables| && skip == Candidates(tables[..done])
    requires FindNetIncome(tables, skip).Some?
    ensures var h := FindNetIncome(tables, skip).value.table;
            done <= h && Candidates(tables[..h]) == skip
            && Candidates(tables[..h + 1]) == skip + [tables[h]]
  {
    var h := FindNetIncome(tables, skip).value.table;
    FindNetIncomeFirstCell(tables, skip);
    CandidatesMembers(tables[..done]);
    assert forall j :: 0 <= j < done ==> tables[..done][j] == tables[j];
    CandidatesSkip(tables, done, h);
    CandidatesStep(tables, h);
  }

  /** While the loop stands on a table without years, no entry of `skip`
      has years. */
  lemma RetryStateNoYears(yearsOf: YearsOf, tables: seq<Table>, skip: seq<Table>, h: nat)
    requires RetryState(yearsOf, tables, skip, h) && yearsOf(tables[h]) == []
    ensures h + 1 <= |tables| && skip == Candidates(tables[..h + 1])
    ensures forall k :: 0 <= k < |skip| ==> yearsOf(skip[k]) == []
  {
  }

  /** The first lookup, and every later one while the current table has no
      years, moves the loop to a later table and keeps its state. */
  lemma RetryAdvance(yearsOf: YearsOf, tables: seq<Table>, skip: seq<Table>, done: nat)
    requires done <= |tables| && skip == Candidates(tables[..done])
    requires forall k :: 0 <= k < |skip| ==> yearsOf(skip[k]) == []
    requires FindNetIncome(tables, skip).Some?
    ensures var hit := FindNetIncome(tables, skip).value;
            done <= hit.table && hit.anchor == Anchor(FirstNonEmptyRow(tables[hit.table]), 0)
            && RetryState(yearsOf, tables, skip + [tables[hit.table]], hit.table)
  {
    var hit := FindNetIncome(tables, skip).value;
    RetryStep(tables, skip, done);
    FindNetIncomeFirstCell(tables, skip);
    var skip' := skip + [tables[hit.table]];
    assert skip'[..|skip'| - 1] == skip;
    assert |skip'| <= hit.table + 1;
  }

  /** The search ran out of tables while every skipped table lacked years:
      no table has a year row. */
  lemma RetryExhausted(yearsOf: YearsOf, tables: seq<Table>, skip: seq<Table>)
    requires forall k :: 0 <= k < |skip| ==> yearsOf(skip[k]) == []
    requires FindNetIncome(tables, skip).None?
    ensures ChooseTable(yearsOf, tables) == None
  {
    FindNetIncomeFirstCell(tables, skip);
    assert forall j :: 0 <= j < |tables| && HasCell(tables[j]) ==> tables[j] in skip;
  }

  /** The loop stops on `len(skip_tables) == len(tables)`: every table has
      been visited, so the chosen table would be the last one, and the loop
      gives up. */
  lemma RetryGivesUp(yearsOf: YearsOf, tables: seq<Table>, skip: seq<Table>, h: nat)
    requires RetryState(yearsOf, tables, skip, h) && 2 <= |skip| == |tables|
    ensures ChooseTable(yearsOf, tables) == None
  {
    assert h == |tables| - 1;
    assert tables[..h + 1] == tables;
    CandidatesFull(tables);
    CandidatesMembers(tables[..h]);
    forall j | 0 <= j < h && HasCell(tables[j])
      ensures yearsOf(tables[j]) == []
    {
      assert tables[..h][j] == tables[j];
      assert tables[j] in skip[..|skip| - 1];
    }
  }

  /** One round of the loop from table `h`, which has no years: either
      the lookup fails and no table has a year row, or it moves the loop to
      a later table, keeping its state, and if that used up every table no
      table has a year row either. */
  lemma RetryNext(yearsOf: YearsOf, tables: seq<Table>, skip: seq<Table>, h: nat)
    requires RetryState(yearsOf, tables, skip, h) && yearsOf(tables[h]) == []
    ensures FindNetIncome(tables, skip).None? ==> ChooseTable(yearsOf, tables) == None
    ensures FindNetIncome(tables, skip).Some? ==>
              var hit := FindNetIncome(tables, skip).value;
              var skip' := skip + [tables[hit.table]];
              hit.anchor == Anchor(FirstNonEmptyRow(tables[hit.table]), 0)
              && RetryState(yearsOf, tables, skip', hit.table)
              && (|skip'| == |tables| ==> ChooseTable(yearsOf, tables) == None)
  {
    RetryStateNoYears(yearsOf, tables, skip, h);
    if FindNetIncome(tables, skip).None? {
      RetryExhausted(yearsOf, tables, skip);
    } else {
      var hit := FindNetIncome(tables, skip).value;
      RetryAdvance(yearsOf, tables, skip, h + 1);
      var skip' := skip + [tables[hit.table]];
      if |skip'| == |tables| {
        RetryGivesUp(yearsOf, tables, skip', hit.table);
      }
    }
  }

  /** The loop leaves with years: the table it stands on is the first with a
      year row, and the loop has not used up the table list. */
  lemma RetryFound(yearsOf: YearsOf, tables: seq<Table>, skip: seq<Table>, h: nat)
    requires RetryState(yearsOf, tables, skip, h) && yearsOf(tables[h]) != []
    requires |skip| < |tables| || |skip| == 1
    ensures ChooseTable(yearsOf, tables) ==
            Some(Located(h, Anchor(FirstNonEmptyRow(tables[h]), 0), yearsOf(tables[h])))
  {
    CandidatesMembers(tables[..h]);
    forall j | 0 <= j < h && HasCell(tables[j])
      ensures yearsOf(tables[j]) == []
    {
      assert tables[..h][j] == tables[j];
      assert tables[j] in skip[..|skip| - 1];
    }
    assert FirstYearTable(yearsOf, tables, 0) == Some(h);
    if 2 <= |tables| && h == |tables| - 1 && AllDistinct(tables) && AllHaveCells(tables) {
      assert tables[..h + 1] == tables;
      CandidatesFull(tables);
    }
  }

  /** The lookup-and-retry part of `get_all_net_incomes`, for any way of
      reading a table's years: look up a table; while its years are empty,
      look up the next table not yet skipped, add it to `skip_tables`, read
      its years, and give up once `skip_tables` is as long as the table list.
      A failed lookup (`None` unpacked, the `TypeError`) gives None. */
  method RetryLoop(yearsOf: YearsOf, tables: seq<Table>) returns (r: Option<Located>)
    ensures r == ChooseTable(yearsOf, tables)
  {
    var found := FindNetIncome(tables, []);
    if found.None? {
      RetryExhausted(yearsOf, tables, []);
      return None;
    }
    RetryAdvance(yearsOf, tables, [], 0);
    var hit := found.value;
    var years := yearsOf(tables[hit.table]);
    var skip := [tables[hit.table]];
    while years == []
      invariant RetryState(yearsOf, tables, skip, hit.table)
      invariant hit.anchor == Anchor(FirstNonEmptyRow(tables[hit.table]), 0)
      invariant years == yearsOf(tables[hit.table])
      invariant |skip| < |tables| || |skip| == 1
      decreases |tables| - |skip|
    {
      RetryNext(yearsOf, tables, skip, hit.table);
      found := FindNetIncome(tables, skip);
      if found.None? {
        return None;
      }
      hit := found.value;
      skip := skip + [tables[hit.table]];
      years := yearsOf(tables[hit.table]);
      if |skip| == |tables| {
        return None;
      }
    }
    RetryFound(yearsOf, tables, skip, hit.table);
    return Some(Located(hit.table, hit.anchor, years));
  }

  /** The retry loop of `get_all_net_incomes` with the years of
      `get_all_income_years`. */
  method LocateYearTable(classify: Classifier, tables: seq<Table>) returns (r: Option<Located>)
    ensures r == YearTable(classify, tables)
  {
    r := RetryLoop(TableYears(classify), tables);
  }
}
