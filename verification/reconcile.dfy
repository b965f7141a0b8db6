/** The end of `get_all_net_incomes` in netIncome.py: reading the value row
    beside the anchor cell and reconciling the number of values with the
    number of years. */
module Reconcile {
  import opened Wrappers
  import opened Tables
  import opened Years
  import opened Amounts
  import opened Extraction

  /** Years and their values, position by position. */
  datatype Series = Series(years: seq<int>, incomes: seq<int>)

  /** The sum of a sequence, adding from the left as the fold loop does. */
  function Sum(s: seq<int>): int {
    if s == [] then 0 else Sum(s[..|s| - 1]) + s[|s| - 1]
  }

  /** One more value added to a running sum. */
  lemma SumSnoc(s: seq<int>, x: int)
    ensures Sum(s + [x]) == Sum(s) + x
  {
    assert (s + [x])[..|s|] == s;
  }

  /** Sums of adjacent pieces add up. */
  lemma {:induction false} SumAppend(a: seq<int>, b: seq<int>)
    ensures Sum(a + b) == Sum(a) + Sum(b)
    decreases |b|
  {
    if b == [] {
      assert a + b == a;
    } else {
      var b' := b[..|b| - 1];
      assert a + b == (a + b') + [b[|b| - 1]];
      SumAppend(a, b');
      SumSnoc(a + b', b[|b| - 1]);
    }
  }

  /** Consecutive groups of four values, each summed; a trailing group of
      fewer than four is dropped. */
  function QuarterSums(v: seq<int>): (r: seq<int>)
    ensures |r| == |v| / 4
    decreases |v|
  {
    if |v| < 4 then [] else [v[0] + v[1] + v[2] + v[3]] + QuarterSums(v[4..])
  }

  /** The sum of four consecutive values. */
  lemma SumFour(s: seq<int>)
    requires |s| == 4
    ensures Sum(s) == s[0] + s[1] + s[2] + s[3]
  {
    assert s[..3][..2] == s[..2] && s[..3][2] == s[2];
    assert s[..2][..1] == s[..1] && s[..2][1] == s[1];
    assert s[..1][..0] == [] && s[..1][0] == s[0];
    assert Sum(s[..1]) == s[0];
    assert Sum(s[..2]) == Sum(s[..1]) + s[1];
    assert Sum(s[..3]) == Sum(s[..2]) + s[2];
    assert Sum(s) == Sum(s[..3]) + s[3];
  }

  /** Grouping works piecewise when the first piece is a whole number of
      groups. */
  lemma {:induction false} QuarterSumsAppend(a: seq<int>, b: seq<int>)
    requires |a| % 4 == 0
    ensures QuarterSums(a + b) == QuarterSums(a) + QuarterSums(b)
    decreases |a|
  {
    if a == [] {
      assert a + b == b;
    } else {
      assert (a + b)[4..] == a[4..] + b;
      QuarterSumsAppend(a[4..], b);
    }
  }

  /** The k-th grouped value is the sum of the k-th group of four. */
  lemma {:induction false} QuarterSumsElement(v: seq<int>, k: nat)
    requires k < |v| / 4
    ensures QuarterSums(v)[k] == Sum(v[4 * k..4 * k + 4])
    decreases k
  {
    if k == 0 {
      SumFour(v[..4]);
    } else {
      assert v[4..][4 * (k - 1)..4 * (k - 1) + 4] == v[4 * k..4 * k + 4];
      QuarterSumsElement(v[4..], k - 1);
    }
  }

  /** Grouping a whole number of groups keeps the total. */
  lemma {:induction false} QuarterSumsTotal(v: seq<int>)
    requires |v| % 4 == 0
    ensures Sum(QuarterSums(v)) == Sum(v)
    decreases |v|
  {
    if v != [] {
      var g := v[0] + v[1] + v[2] + v[3];
      assert v == v[..4] + v[4..];
      SumAppend(v[..4], v[4..]);
      SumFour(v[..4]);
      QuarterSumsTotal(v[4..]);
      SumAppend([g], QuarterSums(v[4..]));
      assert Sum([g]) == g by {
        assert [g][..0] == [];
      }
    }
  }

  /** One value into the running sum: the sum of the open group grows by it. */
  lemma FoldAdd(v: seq<int>, start: nat, i: nat)
    requires start <= i < |v|
    ensures Sum(v[start..i + 1]) == Sum(v[start..i]) + v[i]
  {
    assert v[start..i + 1] == v[start..i] + [v[i]];
    SumSnoc(v[start..i], v[i]);
  }

  /** A group closes at four values: its sum joins the grouped values of
      the prefix. */
  lemma FoldEmit(v: seq<int>, start: nat)
    requires start % 4 == 0 && start + 4 <= |v|
    ensures QuarterSums(v[..start + 4]) == QuarterSums(v[..start]) + [Sum(v[start..start + 4])]
  {
    assert v[..start + 4] == v[..start] + v[start..start + 4];
    QuarterSumsAppend(v[..start], v[start..start + 4]);
    SumFour(v[start..start + 4]);
  }

  /** The values left in an open group of fewer than four are dropped. */
  lemma FoldEnd(v: seq<int>, start: nat)
    requires start % 4 == 0 && start <= |v| < start + 4
    ensures QuarterSums(v) == QuarterSums(v[..start])
  {
    assert v == v[..start] + v[start..];
    QuarterSumsAppend(v[..start], v[start..]);
  }

  /** The quarter fold of `get_all_net_incomes`: a running sum and a counter
      that emit the sum and reset at four. */
  method FoldQuarters(v: seq<int>) returns (r: seq<int>)
    ensures r == QuarterSums(v)
  {
    r := [];
    var index := 0;
    var nextIncome := 0;
    var i := 0;
    while i < |v|
      invariant 0 <= i <= |v| && 0 <= index < 4 && index <= i
      invariant (i - index) % 4 == 0
      invariant nextIncome == Sum(v[i - index..i])
      invariant r == QuarterSums(v[..i - index])
    {
      FoldAdd(v, i - index, i);
      nextIncome := nextIncome + v[i];
      index := index + 1;
      if index == 4 {
        FoldEmit(v, i + 1 - 4);
        r := r + [nextIncome];
        nextIncome := 0;
        index := 0;
      }
      i := i + 1;
    }
    FoldEnd(v, i - index);
  }

  /** The count reconciliation of `get_all_net_incomes`: equal counts pass
      through; four values per year are folded into yearly sums; otherwise,
      when both are non-empty, both are cut to the shorter length (`zip`);
      otherwise there is nothing to return. */
  function Reconcile(years: seq<int>, values: seq<int>): (r: Option<Series>)
    ensures r.None? <==> (years == [] || values == []) && |years| != |values|
    ensures |years| == |values| ==> r == Some(Series(years, values))
    ensures r.Some? && |years| != |values| && |years| * 4 != |values| ==>
              |r.value.years| == (if |years| < |values| then |years| else |values|)
    ensures r.Some? ==> |r.value.years| == |r.value.incomes| && |r.value.years| <= |years|
                        && r.value.years == years[..|r.value.years|]
    ensures r.Some? && years != [] ==> r.value.years != []
    ensures r.Some? && |years| * 4 != |values| ==>
              |r.value.incomes| <= |values| && r.value.incomes == values[..|r.value.incomes|]
    ensures r.Some? && |years| != |values| && |years| * 4 == |values| ==>
              |r.value.incomes| == |years| && Sum(r.value.incomes) == Sum(values)
  {
    if |years| == |values| then Some(Series(years, values))
    else if |years| * 4 == |values| then
      QuarterSumsTotal(values);
      Some(Series(years, QuarterSums(values)))
    else if |years| > 0 && |values| > 0 then
      var m := if |years| < |values| then |years| else |values|;
      Some(Series(years[..m], values[..m]))
    else None
  }

  /** Folding quarters: each yearly value is the sum of its four quarters. */
  lemma ReconcileQuarters(years: seq<int>, values: seq<int>)
    requires |years| != |values| && |years| * 4 == |values|
    ensures Reconcile(years, values).Some?
    ensures forall k :: 0 <= k < |years| ==>
              Reconcile(years, values).value.incomes[k] == Sum(values[4 * k..4 * k + 4])
  {
    forall k | 0 <= k < |years|
      ensures QuarterSums(values)[k] == Sum(values[4 * k..4 * k + 4])
    {
      QuarterSumsElement(values, k);
    }
  }

  /** `get_all_net_incomes`: the retry loop, the value row beside the anchor
      cell, and the count reconciliation. */
  function AllNetIncomes(classify: Classifier, tables: seq<Table>): (r: Option<Series>)
    ensures r.Some? ==> r.value.years != [] && |r.value.years| == |r.value.incomes|
    ensures YearTable(classify, tables).None? ==> r.None?
  {
    match YearTable(classify, tables)
    case None => None
    case Some(loc) => Reconcile(loc.years, NetIncomes(tables[loc.table], loc.anchor))
  }

  /** A document with one table: whatever cell holds the net income label,
      the values are read from the table's first row that has cells. With
      the year row on top, the years themselves are read back as values. */
  lemma SingleTableReadsFirstRow(classify: Classifier, t: Table)
    requires HasCell(t) && IncomeYears(classify, t) != []
    ensures AllNetIncomes(classify, [t]) ==
            Reconcile(IncomeYears(classify, t), RowAmounts(t[FirstNonEmptyRow(t)]))
  {
    assert [t][0] == t;
    assert TableYears(classify)(t) == IncomeYears(classify, t);
    assert FirstYearTable(TableYears(classify), [t], 0) == Some(0);
  }

  /** The years returned are a prefix of one table's year row, so they lie
      in any window the classifier keeps to. */
  lemma AllNetIncomesWithin(classify: Classifier, thisYear: int, tables: seq<Table>)
    requires WithinWindow(classify, thisYear)
    ensures var r := AllNetIncomes(classify, tables);
            r.Some? ==> forall k :: 0 <= k < |r.value.years| ==> IsValidYear(thisYear, r.value.years[k])
  {
    var loc := YearTable(classify, tables);
    if loc.Some? {
      var t := tables[loc.value.table];
      var i :| 0 <= i < |t| && IncomeYears(classify, t) == RowYears(classify, t[i]);
      RowYearsWithinWindow(classify, thisYear, t[i]);
    }
  }

  /** Every year `get_all_net_incomes` returns passes `is_valid_year`. */
  lemma AllNetIncomesYears(thisYear: int, parse: DateParse, tables: seq<Table>)
    ensures var r := AllNetIncomes(YearClassifier(thisYear, parse), tables);
            r.Some? ==> forall k :: 0 <= k < |r.value.years| ==> IsValidYear(thisYear, r.value.years[k])
  {
    YearClassifierWithinWindow(thisYear, parse);
    AllNetIncomesWithin(YearClassifier(thisYear, parse), thisYear, tables);
  }

  /** `get_all_net_incomes` as the source runs it: the retry loop, the value
      row, and the reconciliation with the quarter fold as a loop. */
  method GetAllNetIncomes(classify: Classifier, tables: seq<Table>) returns (r: Option<Series>)
    ensures r == AllNetIncomes(classify, tables)
  {
    var loc := LocateYearTable(classify, tables);
    if loc.None? {
      return None;
    }
    var years := loc.value.years;
    var values := RowAmounts(tables[loc.value.table][loc.value.anchor.row]);
    if |years| != |values| {
      if |years| * 4 == |values| {
        values := FoldQuarters(values);
      } else if |years| > 0 && |values| > 0 {
        var m := if |years| < |values| then |years| else |values|;
        years := years[..m];
        values := values[..m];
      } else {
        return None;
      }
    }
    return Some(Series(years, values));
  }
}
