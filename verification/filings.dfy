/** The filing filter of netIncome.py: `get_links` and `is_ammend`.

    A filing is the date and document link of one row of the listing. The
    filing-type column is read separately, by row number, from the listing's
    summary table (`tableFile2`): `summary[i]` is the text of the first cell
    of its row `i`, row 0 being the header. The counter that picks the
    summary row, and also the link, advances only for filings dated after
    the cutoff; so a filing on or before the cutoff shifts the rows and
    links used for every later filing. */
module Filings {
  import opened Wrappers

  datatype Date = Date(year: int, month: int, day: int)

  /** Calendar order of dates. */
  predicate After(a: Date, b: Date) {
    a.year > b.year
    || (a.year == b.year && (a.month > b.month || (a.month == b.month && a.day > b.day)))
  }

  /** Only filings dated strictly after 1 January 2008 are considered. */
  const Cutoff := Date(2008, 1, 1)

  datatype Filing = Filing(date: Date, link: string)

  /** What `get_links` returns: the chosen links and the years paired with them. */
  datatype Kept = Kept(links: seq<string>, years: seq<int>)

  /** `is_ammend(page, index)`: whether the filing type in summary row
      `index + 1` contains an `A`; None where that row does not exist (the
      `IndexError`). */
  function IsAmendment(summary: seq<string>, index: nat): (r: Option<bool>)
    ensures r.None? <==> |summary| <= index + 1
    ensures r == Some(true) <==> index + 1 < |summary| && 'A' in summary[index + 1]
  {
    if index + 1 < |summary| then Some('A' in summary[index + 1]) else None
  }

  /** Prefixes `acc` to a successful result; a failure stays a failure. */
  function Prepend(acc: Kept, r: Option<Kept>): Option<Kept> {
    match r
    case None => None
    case Some(k) => Some(Kept(acc.links + k.links, acc.years + k.years))
  }

  /** The date loop of `get_links` from filing `pos` on, with the counter at
      `index`. A filing after the cutoff is kept when its summary row is not
      an amendment; it contributes the link at position `index` and its own
      year. */
  function FilterFrom(filings: seq<Filing>, summary: seq<string>, pos: nat, index: nat): Option<Kept>
    requires index <= pos <= |filings|
    decreases |filings| - pos
  {
    if pos == |filings| then Some(Kept([], []))
    else if !After(filings[pos].date, Cutoff) then FilterFrom(filings, summary, pos + 1, index)
    else match IsAmendment(summary, index)
      case None => None
      case Some(true) => FilterFrom(filings, summary, pos + 1, index + 1)
      case Some(false) =>
        Prepend(Kept([filings[index].link], [filings[pos].date.year]),
                FilterFrom(filings, summary, pos + 1, index + 1))
  }

  /** `get_links` after the page has been read. */
  function FilterFilings(filings: seq<Filing>, summary: seq<string>): Option<Kept> {
    FilterFrom(filings, summary, 0, 0)
  }

  /** The number of filings dated after the cutoff, from position `pos`. */
  function PassingFrom(filings: seq<Filing>, pos: nat): nat
    requires pos <= |filings|
    decreases |filings| - pos
  {
    if pos == |filings| then 0
    else (if After(filings[pos].date, Cutoff) then 1 else 0) + PassingFrom(filings, pos + 1)
  }

  /** Links and years come in pairs, and every kept year is 2008 or later. */
  lemma {:induction false} FilterFromShape(filings: seq<Filing>, summary: seq<string>, pos: nat, index: nat)
    requires index <= pos <= |filings|
    ensures var r := FilterFrom(filings, summary, pos, index);
            r.Some? ==> |r.value.links| == |r.value.years|
                        && forall k :: 0 <= k < |r.value.years| ==> r.value.years[k] >= 2008
    decreases |filings| - pos
  {
    if pos < |filings| {
      FilterFromShape(filings, summary, pos + 1, index);
      FilterFromShape(filings, summary, pos + 1, index + 1);
    }
  }

  /** The listing fails (`IndexError`) exactly when the counter runs past the
      summary table: some filing after the cutoff has no summary row. */
  lemma {:induction false} FilterFromFails(filings: seq<Filing>, summary: seq<string>, pos: nat, index: nat)
    requires index <= pos <= |filings|
    ensures FilterFrom(filings, summary, pos, index).None? <==>
            PassingFrom(filings, pos) > 0 && index + PassingFrom(filings, pos) >= |summary|
    decreases |filings| - pos
  {
    if pos < |filings| {
      FilterFromFails(filings, summary, pos + 1, index);
      FilterFromFails(filings, summary, pos + 1, index + 1);
    }
  }

  /** `get_links` fails exactly when there are at least as many filings
      after the cutoff as summary rows (header included), and there is one
      such filing at all. */
  lemma FilterFilingsFails(filings: seq<Filing>, summary: seq<string>)
    ensures FilterFilings(filings, summary).None? <==>
            PassingFrom(filings, 0) > 0 && PassingFrom(filings, 0) >= |summary|
    ensures FilterFilings(filings, summary).Some? ==>
            |FilterFilings(filings, summary).value.links| == |FilterFilings(filings, summary).value.years|
  {
    FilterFromFails(filings, summary, 0, 0);
    FilterFromShape(filings, summary, 0, 0);
  }

  /** No summary row from `index + 1` on marks an amendment. */
  predicate NoAmendmentsFrom(summary: seq<string>, index: nat) {
    forall i :: index < i < |summary| ==> 'A' !in summary[i]
  }

  /** When every filing is after the cutoff and the summary lists each one
      without amendments, every filing is kept with its own link and year. */
  lemma {:induction false} FilterFromAllKept(filings: seq<Filing>, summary: seq<string>, pos: nat)
    requires pos <= |filings| < |summary| && NoAmendmentsFrom(summary, pos)
    requires forall i :: pos <= i < |filings| ==> After(filings[i].date, Cutoff)
    ensures var r := FilterFrom(filings, summary, pos, pos);
            r.Some? && |r.value.links| == |filings| - pos && |r.value.years| == |filings| - pos
            && (forall k :: 0 <= k < |r.value.links| ==> r.value.links[k] == filings[pos + k].link)
            && (forall k :: 0 <= k < |r.value.years| ==> r.value.years[k] == filings[pos + k].date.year)
    decreases |filings| - pos
  {
    if pos < |filings| {
      FilterFromAllKept(filings, summary, pos + 1);
      FilterFromShape(filings, summary, pos + 1, pos + 1);
    }
  }

  /** An amendment, typed "10-K/A" in its summary row, is passed over; a
      "10-K" is kept. */
  lemma AmendmentExcluded(d1: Date, d2: Date, l1: string, l2: string)
    requires After(d1, Cutoff) && After(d2, Cutoff)
    ensures FilterFilings([Filing(d1, l1), Filing(d2, l2)], ["Filings", "10-K/A", "10-K"])
            == Some(Kept([l2], [d2.year]))
  {
    var fs := [Filing(d1, l1), Filing(d2, l2)];
    var summary := ["Filings", "10-K/A", "10-K"];
    assert 'A' in summary[1] by {
      assert summary[1][5] == 'A';
    }
    assert 'A' !in summary[2];
    assert FilterFrom(fs, summary, 2, 2) == Some(Kept([], []));
    assert IsAmendment(summary, 1) == Some(false);
    assert [l2] + [] == [l2] && [d2.year] + [] == [d2.year];
    assert FilterFrom(fs, summary, 1, 1) == Some(Kept([l2], [d2.year]));
    assert IsAmendment(summary, 0) == Some(true);
    assert FilterFrom(fs, summary, 0, 0) == FilterFrom(fs, summary, 1, 1);
  }

  /** A filing on or before the cutoff does not advance the counter, so the
      next filing's year is paired with the earlier filing's link and with
      the earlier filing's summary row. */
  lemma OldFilingShiftsLinks(oldLink: string, newLink: string)
    ensures FilterFilings([Filing(Date(2007, 12, 31), oldLink), Filing(Date(2010, 3, 1), newLink)],
                          ["Filings", "10-K", "10-K"])
            == Some(Kept([oldLink], [2010]))
  {
    var fs := [Filing(Date(2007, 12, 31), oldLink), Filing(Date(2010, 3, 1), newLink)];
    var summary := ["Filings", "10-K", "10-K"];
    assert 'A' !in summary[1];
    assert FilterFrom(fs, summary, 2, 1) == Some(Kept([], []));
    assert After(fs[1].date, Cutoff) && !After(fs[0].date, Cutoff);
    assert IsAmendment(summary, 0) == Some(false);
    assert [oldLink] + [] == [oldLink] && [2010] + [] == [2010];
    assert FilterFrom(fs, summary, 1, 0) == Some(Kept([oldLink], [2010]));
  }

  /** The accumulated prefix of the loop combines with the rest of the run. */
  lemma PrependAssoc(a: Kept, b: Kept, r: Option<Kept>)
    ensures Prepend(a, Prepend(b, r)) == Prepend(Kept(a.links + b.links, a.years + b.years), r)
  {
    if r.Some? {
      assert a.links + (b.links + r.value.links) == (a.links + b.links) + r.value.links;
      assert a.years + (b.years + r.value.years) == (a.years + b.years) + r.value.years;
    }
  }

  /** The date loop of `get_links`, appending to `good_links` and
      `link_years` and advancing `index` only for filings after the cutoff. */
  method GetLinks(filings: seq<Filing>, summary: seq<string>) returns (r: Option<Kept>)
    ensures r == FilterFilings(filings, summary)
  {
    var goodLinks: seq<string> := [];
    var linkYears: seq<int> := [];
    var index := 0;
    var pos := 0;
    ghost var rest := FilterFrom(filings, summary, 0, 0);
    assert rest.Some? ==> Kept([] + rest.value.links, [] + rest.value.years) == rest.value;
    while pos < |filings|
      invariant index <= pos <= |filings|
      invariant FilterFilings(filings, summary) == Prepend(Kept(goodLinks, linkYears), FilterFrom(filings, summary, pos, index))
      decreases |filings| - pos
    {
      var filing := filings[pos];
      if After(filing.date, Cutoff) {
        var amended := IsAmendment(summary, index);
        if amended.None? {
          return None;
        }
        if !amended.value {
          PrependAssoc(Kept(goodLinks, linkYears), Kept([filings[index].link], [filing.date.year]),
                       FilterFrom(filings, summary, pos + 1, index + 1));
          linkYears := linkYears + [filing.date.year];
          goodLinks := goodLinks + [filings[index].link];
        }
        index := index + 1;
      }
      pos := pos + 1;
    }
    assert Kept(goodLinks, linkYears).links + [] == goodLinks;
    assert Kept(goodLinks, linkYears).years + [] == linkYears;
    return Some(Kept(goodLinks, linkYears));
  }
}
