/** The abstract document: a table is its `tr` rows, a row its `td` cell
    texts. `table.find_all('td')` visits cells row by row, left to right; an
    anchor names one cell by row and column, and a hit names a table of the
    document's table list together with an anchor in it. */
module Tables {
  import opened Wrappers

  type Row = seq<string>
  type Table = seq<Row>

  datatype Anchor = Anchor(row: nat, col: nat)
  datatype Hit = Hit(table: nat, anchor: Anchor)

  predicate ValidAnchor(t: Table, a: Anchor) {
    a.row < |t| && a.col < |t[a.row]|
  }

  /** The table has at least one `td` cell. */
  predicate HasCell(t: Table) {
    exists i :: 0 <= i < |t| && t[i] != []
  }

  /** Index of the first row that has a cell. */
  function FirstNonEmptyRow(t: Table): (i: nat)
    requires HasCell(t)
    ensures i < |t| && t[i] != []
    ensures forall j :: 0 <= j < i ==> t[j] == []
  {
    if t[0] != [] then 0 else FirstNonEmptyRow(t[1..]) + 1
  }

  /** First column of `row`, at or after `c`, whose text `accept` admits. */
  function FindInRow(row: Row, accept: string -> bool, c: nat): (r: Option<nat>)
    requires c <= |row|
    ensures r.Some? ==> c <= r.value < |row| && accept(row[r.value])
    ensures r.Some? ==> forall k :: c <= k < r.value ==> !accept(row[k])
    ensures r.None? ==> forall k :: c <= k < |row| ==> !accept(row[k])
    decreases |row| - c
  {
    if c == |row| then None
    else if accept(row[c]) then Some(c)
    else FindInRow(row, accept, c + 1)
  }

  /** First cell of `t`, in `find_all('td')` order from row `i` on, that
      `accept` admits. */
  function FindInTable(t: Table, accept: string -> bool, i: nat): (r: Option<Anchor>)
    requires i <= |t|
    ensures r.Some? ==> i <= r.value.row && ValidAnchor(t, r.value) && accept(t[r.value.row][r.value.col])
    ensures r.Some? ==> forall j, k :: i <= j < r.value.row && 0 <= k < |t[j]| ==> !accept(t[j][k])
    ensures r.Some? ==> forall k :: 0 <= k < r.value.col ==> !accept(t[r.value.row][k])
    ensures r.None? ==> forall j, k :: i <= j < |t| && 0 <= k < |t[j]| ==> !accept(t[j][k])
    decreases |t| - i
  {
    if i == |t| then None
    else match FindInRow(t[i], accept, 0)
      case Some(c) => Some(Anchor(i, c))
      case None => FindInTable(t, accept, i + 1)
  }

  /** The search loop shared by both `find_net_income` variants: tables in
      order from index `i`, a table equal (as a value) to one in `skip`
      passed over, and the first admitted cell of the first table that has
      one returned. */
  function FindInTables(tables: seq<Table>, skip: seq<Table>, accept: string -> bool, i: nat): (r: Option<Hit>)
    requires i <= |tables|
    ensures r.Some? ==> i <= r.value.table < |tables| && tables[r.value.table] !in skip
    ensures r.Some? ==> FindInTable(tables[r.value.table], accept, 0) == Some(r.value.anchor)
    ensures r.Some? ==> forall j :: i <= j < r.value.table ==> tables[j] in skip || FindInTable(tables[j], accept, 0).None?
    ensures r.None? ==> forall j :: i <= j < |tables| ==> tables[j] in skip || FindInTable(tables[j], accept, 0).None?
    decreases |tables| - i
  {
    if i == |tables| then None
    else if tables[i] !in skip && FindInTable(tables[i], accept, 0).Some? then
      Some(Hit(i, FindInTable(tables[i], accept, 0).value))
    else FindInTables(tables, skip, accept, i + 1)
  }

  /** Pairwise distinct elements. */
  predicate AllDistinct<T(==)>(s: seq<T>) {
    forall i, j :: 0 <= i < j < |s| ==> s[i] != s[j]
  }
}
