/** The income assembler of netIncome.py, `get_past_net_income`: the filing
    filter, then one document per kept link, each contributing its
    (year, value) pairs to the fact map, newest year first, only for years
    not yet present; the run stops as soon as the year
    `thisYear - numYears` has been added.

    Fetching a document is a parameter: `fetch(link)` is the document's
    table list, or None where `get_document` fails to find its document
    listing (an `IndexError`, which the assembler turns into None for the
    whole ticker). Extraction is a parameter as well; the source uses
    `get_all_net_incomes`, whose failure (a `TypeError` when its None is
    unpacked) also ends the whole ticker with None. */
module Assembler {
  import opened Wrappers
  import opened Tables
  import opened Years
  import opened Reconcile
  import opened Filings

  type FactMap = map<int, int>
  type Fetch = string -> Option<seq<Table>>
  type Extract = seq<Table> -> Option<Series>

  /** The first `n` pairs of `zip(ys, vs)` assigned into a dict in order: a
      repeated year keeps its last value. */
  function ZipPrefix(ys: seq<int>, vs: seq<int>, n: nat): map<int, int>
    requires n <= |ys| && n <= |vs|
  {
    if n == 0 then map[] else ZipPrefix(ys, vs, n - 1)[ys[n - 1] := vs[n - 1]]
  }

  /** The keys are the first `n` years, and each year holds the value paired
      with its last occurrence. */
  lemma {:induction false} ZipPrefixSpec(ys: seq<int>, vs: seq<int>, n: nat)
    requires n <= |ys| && n <= |vs|
    ensures forall y :: y in ZipPrefix(ys, vs, n) <==> exists k :: 0 <= k < n && ys[k] == y
    ensures forall k :: 0 <= k < n && (forall j :: k < j < n ==> ys[j] != ys[k]) ==>
              ys[k] in ZipPrefix(ys, vs, n) && ZipPrefix(ys, vs, n)[ys[k]] == vs[k]
  {
    if n > 0 {
      ZipPrefixSpec(ys, vs, n - 1);
    }
  }

  /** `temp_dict` of `get_past_net_income`: `zip` stops at the shorter list. */
  function ZipToMap(ys: seq<int>, vs: seq<int>): map<int, int> {
    ZipPrefix(ys, vs, ZipLength(ys, vs))
  }

  /** Strictly decreasing: newest year first, no year twice. */
  predicate Descending(s: seq<int>) {
    forall i, j :: 0 <= i < j < |s| ==> s[i] > s[j]
  }

  /** Below the head of a descending sequence lies a descending rest of
      smaller elements. */
  lemma DescendingTail(s: seq<int>)
    requires Descending(s) && s != []
    ensures Descending(s[1..])
    ensures forall y :: y in s[1..] ==> y < s[0]
  {
    forall y | y in s[1..] ensures y < s[0] {
      var k :| 0 <= k < |s[1..]| && s[1..][k] == y;
      assert s[k + 1] == y;
    }
  }

  /** A new head above every element keeps a sequence descending. */
  lemma DescendingCons(h: int, t: seq<int>)
    requires Descending(t) && forall y :: y in t ==> y < h
    ensures Descending([h] + t)
  {
    var r := [h] + t;
    forall i, j | 0 <= i < j < |r| ensures r[i] > r[j] {
      assert r[j] == t[j - 1] && t[j - 1] in t;
      if i > 0 {
        assert r[i] == t[i - 1];
      }
    }
  }

  /** Inserts `x` into a strictly decreasing sequence, unless present. */
  function InsertDesc(x: int, s: seq<int>): (r: seq<int>)
    requires Descending(s)
    ensures Descending(r)
    ensures forall y :: y in r <==> y == x || y in s
  {
    if s == [] then [x]
    else
      DescendingTail(s);
      if x > s[0] then
        DescendingCons(x, s);
        [x] + s
      else if x == s[0] then s
      else
        var rest := InsertDesc(x, s[1..]);
        DescendingCons(s[0], rest);
        assert forall y :: y in s <==> y == s[0] || y in s[1..];
        [s[0]] + rest
  }

  /** `sorted(keys, reverse=True)` of the dict built from `ys`: each year
      once, newest first. */
  function SortedDesc(ys: seq<int>): (r: seq<int>)
    ensures Descending(r)
    ensures forall y :: y in r <==> y in ys
  {
    if ys == [] then []
    else
      assert forall y :: y in ys <==> y == ys[|ys| - 1] || y in ys[..|ys| - 1];
      InsertDesc(ys[|ys| - 1], SortedDesc(ys[..|ys| - 1]))
  }

  /** The pairs `zip` takes: the shorter length. */
  function ZipLength(ys: seq<int>, vs: seq<int>): nat {
    if |ys| < |vs| then |ys| else |vs|
  }

  /** Every key the sorted loop visits is a key of `temp_dict`. */
  lemma SortedKeysInZip(ys: seq<int>, vs: seq<int>)
    ensures forall k :: 0 <= k < |SortedDesc(ys[..ZipLength(ys, vs)])| ==>
              SortedDesc(ys[..ZipLength(ys, vs)])[k] in ZipToMap(ys, vs)
  {
    var n := ZipLength(ys, vs);
    var keys := SortedDesc(ys[..n]);
    ZipPrefixSpec(ys, vs, n);
    forall k | 0 <= k < |keys|
      ensures keys[k] in ZipToMap(ys, vs)
    {
      assert keys[k] in ys[..n];
      var j :| 0 <= j < n && ys[..n][j] == keys[k];
      assert ys[j] == keys[k];
    }
  }

  /** The key loop over one filing's dict: what the fact map has become, and
      whether the target year was just added (the early `return`). */
  datatype Merged = Merged(facts: FactMap, done: bool)

  /** The key loop of `get_past_net_income`: each key not yet present is
      added with the filing's value; adding the target year ends the run. */
  function MergeKeys(incomes: FactMap, temp: FactMap, keys: seq<int>, target: int): Merged
    requires forall k :: 0 <= k < |keys| ==> keys[k] in temp
    decreases |keys|
  {
    if keys == [] then Merged(incomes, false)
    else
      var key := keys[0];
      if key !in incomes then
        var m := incomes[key := temp[key]];
        if key == target then Merged(m, true) else MergeKeys(m, temp, keys[1..], target)
      else MergeKeys(incomes, temp, keys[1..], target)
  }

  /** First writer wins: a year already in the map keeps its value, a new
      year takes the filing's value, and the run ends exactly when the
      target year is among the keys and was not yet present. Without an
      early end, every key has been added. */
  lemma {:induction false} MergeKeysSpec(incomes: FactMap, temp: FactMap, keys: seq<int>, target: int)
    requires forall k :: 0 <= k < |keys| ==> keys[k] in temp
    ensures var r := MergeKeys(incomes, temp, keys, target);
            (forall y :: y in incomes ==> y in r.facts && r.facts[y] == incomes[y])
            && (forall y :: y in r.facts && y !in incomes ==> y in keys && r.facts[y] == temp[y])
            && (r.done <==> target in keys && target !in incomes)
            && (r.done ==> target in r.facts)
            && (!r.done ==> forall k :: 0 <= k < |keys| ==> keys[k] in r.facts)
    decreases |keys|
  {
    if keys != [] {
      var key := keys[0];
      assert forall k :: 1 <= k < |keys| ==> keys[k] == keys[1..][k - 1];
      assert forall y :: y in keys <==> y == key || y in keys[1..];
      if key !in incomes {
        MergeKeysSpec(incomes[key := temp[key]], temp, keys[1..], target);
      } else {
        MergeKeysSpec(incomes, temp, keys[1..], target);
      }
    }
  }

  /** With keys newest first, an early end has added exactly the new years
      from the target year upwards. */
  lemma {:induction false} MergeKeysStopsAtTarget(incomes: FactMap, temp: FactMap, keys: seq<int>, target: int)
    requires forall k :: 0 <= k < |keys| ==> keys[k] in temp
    requires Descending(keys)
    requires MergeKeys(incomes, temp, keys, target).done
    ensures var r := MergeKeys(incomes, temp, keys, target);
            forall y :: y in r.facts <==> y in incomes || (y in keys && y >= target)
    decreases |keys|
  {
    var key := keys[0];
    assert forall k :: 1 <= k < |keys| ==> keys[k] == keys[1..][k - 1];
    assert forall y :: y in keys <==> y == key || y in keys[1..];
    DescendingTail(keys);
    if key !in incomes && key == target {
      assert forall y :: y in keys && y >= target ==> y == key;
    } else if key !in incomes {
      MergeKeysStopsAtTarget(incomes[key := temp[key]], temp, keys[1..], target);
      MergeKeysSpec(incomes[key := temp[key]], temp, keys[1..], target);
    } else {
      MergeKeysStopsAtTarget(incomes, temp, keys[1..], target);
      MergeKeysSpec(incomes, temp, keys[1..], target);
    }
  }

  /** One filing's contribution: `temp_dict` and its keys newest first. */
  function MergeFiling(incomes: FactMap, s: Series, target: int): Merged {
    var n := ZipLength(s.years, s.incomes);
    SortedKeysInZip(s.years, s.incomes);
    MergeKeys(incomes, ZipToMap(s.years, s.incomes), SortedDesc(s.years[..n]), target)
  }

  /** The state of the run over the links. */
  datatype Progress = Running(facts: FactMap) | Done(facts: FactMap) | Failed

  /** One link of the loop: fetch, extract, and merge; a failure ends the
      whole run with None. A run that has ended stays as it is. */
  function Step(fetch: Fetch, extract: Extract, target: int, p: Progress, link: string): Progress {
    if !p.Running? then p
    else match fetch(link)
      case None => Failed
      case Some(tables) =>
        match extract(tables)
        case None => Failed
        case Some(s) =>
          var merged := MergeFiling(p.facts, s, target);
          if merged.done then Done(merged.facts) else Running(merged.facts)
  }

  /** The loop over the links, as a left fold of `Step`. */
  function Collect(fetch: Fetch, extract: Extract, target: int, p: Progress, links: seq<string>): Progress
    decreases |links|
  {
    if links == [] then p else Collect(fetch, extract, target, Step(fetch, extract, target, p, links[0]), links[1..])
  }

  /** Once the run has ended, later links change nothing. */
  lemma {:induction false} CollectEnded(fetch: Fetch, extract: Extract, target: int, p: Progress, links: seq<string>)
    requires !p.Running?
    ensures Collect(fetch, extract, target, p, links) == p
    decreases |links|
  {
    if links != [] {
      CollectEnded(fetch, extract, target, p, links[1..]);
    }
  }

  /** The run over two stretches of links is the run over the first,
      continued over the second. */
  lemma {:induction false} CollectAppend(fetch: Fetch, extract: Extract, target: int, p: Progress, a: seq<string>, b: seq<string>)
    ensures Collect(fetch, extract, target, p, a + b)
            == Collect(fetch, extract, target, Collect(fetch, extract, target, p, a), b)
    decreases |a|
  {
    if a == [] {
      assert a + b == b;
    } else {
      assert (a + b)[0] == a[0] && (a + b)[1..] == a[1..] + b;
      CollectAppend(fetch, extract, target, Step(fetch, extract, target, p, a[0]), a[1..], b);
    }
  }

  /** A link whose document or extraction fails, reached while the run is
      still going, ends the whole run with a failure. */
  lemma CollectFailsAt(fetch: Fetch, extract: Extract, target: int, p: Progress, links: seq<string>, i: nat)
    requires i < |links| && Collect(fetch, extract, target, p, links[..i]).Running?
    requires fetch(links[i]).None? || extract(fetch(links[i]).value).None?
    ensures Collect(fetch, extract, target, p, links) == Failed
  {
    assert links == links[..i] + ([links[i]] + links[i + 1..]);
    CollectAppend(fetch, extract, target, p, links[..i], [links[i]] + links[i + 1..]);
    var q := Collect(fetch, extract, target, p, links[..i]);
    assert Step(fetch, extract, target, q, links[i]) == Failed;
    CollectEnded(fetch, extract, target, Failed, links[i + 1..]);
  }

  /** One step keeps every year already collected with its value. */
  lemma StepKeeps(fetch: Fetch, extract: Extract, target: int, p: Progress, link: string)
    requires p.Running?
    ensures var q := Step(fetch, extract, target, p, link);
            q.Failed? || forall y :: y in p.facts ==> y in q.facts && q.facts[y] == p.facts[y]
  {
    var q := Step(fetch, extract, target, p, link);
    if !q.Failed? {
      var s := extract(fetch(link).value).value;
      var n := ZipLength(s.years, s.incomes);
      SortedKeysInZip(s.years, s.incomes);
      MergeKeysSpec(p.facts, ZipToMap(s.years, s.incomes), SortedDesc(s.years[..n]), target);
    }
  }

  /** A step that ends the run has just added the target year. */
  lemma StepDoneAddsTarget(fetch: Fetch, extract: Extract, target: int, p: Progress, link: string)
    requires p.Running?
    ensures var q := Step(fetch, extract, target, p, link);
            q.Done? ==> target in q.facts && target !in p.facts
  {
    var q := Step(fetch, extract, target, p, link);
    if q.Done? {
      var s := extract(fetch(link).value).value;
      var n := ZipLength(s.years, s.incomes);
      SortedKeysInZip(s.years, s.incomes);
      MergeKeysSpec(p.facts, ZipToMap(s.years, s.incomes), SortedDesc(s.years[..n]), target);
    }
  }

  /** Most recent filing wins across the whole run: a year, once collected,
      keeps its value until the end. */
  lemma {:induction false} CollectKeeps(fetch: Fetch, extract: Extract, target: int, p: Progress, links: seq<string>)
    requires p.Running?
    ensures var q := Collect(fetch, extract, target, p, links);
            q.Failed? || forall y :: y in p.facts ==> y in q.facts && q.facts[y] == p.facts[y]
    decreases |links|
  {
    if links != [] {
      var q := Step(fetch, extract, target, p, links[0]);
      StepKeeps(fetch, extract, target, p, links[0]);
      if q.Running? {
        CollectKeeps(fetch, extract, target, q, links[1..]);
      } else {
        CollectEnded(fetch, extract, target, q, links[1..]);
      }
    }
  }

  /** `get_past_net_income(ticker, num_years)` after the listing page has
      been read. The empty link list fails on `years[0]`; the year shift
      that follows is never used, because the loop rebinds `years`. */
  function PastNetIncome(filings: seq<Filing>, summary: seq<string>, fetch: Fetch, extract: Extract,
                         thisYear: int, numYears: int): Option<FactMap>
  {
    match FilterFilings(filings, summary)
    case None => None
    case Some(kept) =>
      if kept.years == [] then None
      else Outcome(Collect(fetch, extract, thisYear - numYears, Running(map[]), kept.links))
  }

  /** The extraction `get_past_net_income` applies to each document. */
  function NetIncomeExtract(classify: Classifier): Extract {
    tables => AllNetIncomes(classify, tables)
  }

  /** What `get_past_net_income` returns, given the outcome of the run over
      a non-empty list of kept links. */
  function Outcome(p: Progress): Option<FactMap> {
    match p
    case Failed => None
    case Running(m) => Some(m)
    case Done(m) => Some(m)
  }

  /** The result is the outcome of the run over the kept links. */
  lemma PastNetIncomeRun(filings: seq<Filing>, summary: seq<string>, fetch: Fetch, extract: Extract,
                         thisYear: int, numYears: int, kept: Kept)
    requires FilterFilings(filings, summary) == Some(kept) && kept.years != []
    ensures PastNetIncome(filings, summary, fetch, extract, thisYear, numYears)
            == Outcome(Collect(fetch, extract, thisYear - numYears, Running(map[]), kept.links))
  {
  }

  /** No kept link, or a failing listing, gives None. */
  lemma PastNetIncomeNoLinks(filings: seq<Filing>, summary: seq<string>, fetch: Fetch, extract: Extract,
                             thisYear: int, numYears: int)
    requires FilterFilings(filings, summary).None? || FilterFilings(filings, summary).value.years == []
    ensures PastNetIncome(filings, summary, fetch, extract, thisYear, numYears) == None
  {
  }

  /** One link of the run, taken from the front of the remaining links. */
  lemma CollectFront(fetch: Fetch, extract: Extract, target: int, p: Progress, links: seq<string>, i: nat)
    requires i < |links|
    ensures Collect(fetch, extract, target, p, links[i..])
            == Collect(fetch, extract, target, Step(fetch, extract, target, p, links[i]), links[i + 1..])
  {
    assert links[i..][0] == links[i] && links[i..][1..] == links[i + 1..];
  }

  /** `get_past_net_income` as a loop over the kept links with an early
      return; the extraction is the source's `get_all_net_incomes`. */
  method GetPastNetIncome(filings: seq<Filing>, summary: seq<string>, fetch: Fetch, classify: Classifier,
                          thisYear: int, numYears: int) returns (r: Option<FactMap>)
    ensures r == PastNetIncome(filings, summary, fetch, NetIncomeExtract(classify), thisYear, numYears)
  {
    ghost var extract := NetIncomeExtract(classify);
    var kept := GetLinks(filings, summary);
    if kept.None? || kept.value.years == [] {
      PastNetIncomeNoLinks(filings, summary, fetch, extract, thisYear, numYears);
      return None;
    }
    var links := kept.value.links;
    var target := thisYear - numYears;
    ghost var run := Collect(fetch, extract, target, Running(map[]), links);
    PastNetIncomeRun(filings, summary, fetch, extract, thisYear, numYears, kept.value);
    assert links[0..] == links;
    var incomes: FactMap := map[];
    var i := 0;
    while i < |links|
      invariant 0 <= i <= |links|
      invariant run == Collect(fetch, extract, target, Running(incomes), links[i..])
    {
      CollectFront(fetch, extract, target, Running(incomes), links, i);
      var doc := fetch(links[i]);
      if doc.None? {
        CollectEnded(fetch, extract, target, Failed, links[i + 1..]);
        return None;
      }
      var s := GetAllNetIncomes(classify, doc.value);
      assert s == extract(doc.value);
      if s.None? {
        CollectEnded(fetch, extract, target, Failed, links[i + 1..]);
        return None;
      }
      var merged := MergeFiling(incomes, s.value, target);
      if merged.done {
        CollectEnded(fetch, extract, target, Done(merged.facts), links[i + 1..]);
        return Some(merged.facts);
      }
      incomes := merged.facts;
      i := i + 1;
    }
    assert links[i..] == [];
    assert run == Running(incomes);
    return Some(incomes);
  }

  /** First writer wins in a merge: a map holding 2016 merged with a
      newer filing's 2016 and 2015 keeps its own 2016 and gains 2015. */
  lemma MergeExample()
    ensures MergeKeys(map[2016 := 100], map[2016 := 999, 2015 := 50], [2016, 2015], 2010)
            == Merged(map[2016 := 100, 2015 := 50], false)
  {
    var temp := map[2016 := 999, 2015 := 50];
    assert [2016, 2015][1..] == [2015];
    assert [2015][1..] == [];
    assert MergeKeys(map[2016 := 100, 2015 := 50], temp, [], 2010) == Merged(map[2016 := 100, 2015 := 50], false);
  }
}
