/** The statement-table reader of yahoo.py: `parse_soup_table` turns a
    financial statement table into a map from (row name, column heading)
    to cell text, the headings being the first row's cells after the first;
    `get_value` projects one row name onto a list of headings (years). */
module Yahoo {
  import opened Wrappers
  import opened Tables

  /** The exceptions the two functions let escape: `next` on an empty
      header row, a row wider than the header, and a missing (name, year). */
  datatype YahooError = StopIteration | IndexError | KeyError

  /** A (row name, column heading) key of the parsed table. */
  type Key = (string, string)

  /** What `parse_soup_table` returns: the map and the headings. */
  datatype Statement = Statement(values: map<Key, string>, years: seq<string>)

  /** Row `j`'s column `c` is written under `key`: a row after the header
      with more than one cell, a column after the name, and the key made of
      the row's name and the header's cell above. */
  predicate Writes(t: Table, j: int, c: int, key: Key) {
    1 <= j < |t| && 1 < |t[j]| && 1 <= c < |t[j]| && c < |t[0]| && key == (t[j][0], t[0][c])
  }

  /** No write under `key` comes after row `j`, column `c`, in reading order. */
  ghost predicate LastWrite(t: Table, j: int, c: int, key: Key) {
    forall j', c' :: Writes(t, j', c', key) ==> j' < j || (j' == j && c' <= c)
  }

  /** The cell loop of one row: columns 1 to `n - 1` assigned in order under
      the row's name and the heading above each. */
  function AssignRow(acc: map<Key, string>, head: Row, row: Row, n: nat): map<Key, string>
    requires 1 <= n <= |row| && |row| <= |head|
  {
    if n == 1 then acc else AssignRow(acc, head, row, n - 1)[(row[0], head[n - 1]) := row[n - 1]]
  }

  /** The row's keys are added to those already there. */
  lemma {:induction false} AssignRowKeys(acc: map<Key, string>, head: Row, row: Row, n: nat)
    requires 1 <= n <= |row| && |row| <= |head|
    ensures forall key :: key in AssignRow(acc, head, row, n) <==>
                          key in acc || exists c :: 1 <= c < n && key == (row[0], head[c])
  {
    if n > 1 {
      AssignRowKeys(acc, head, row, n - 1);
    }
  }

  /** A key's value is that of the last column written under it. */
  lemma {:induction false} AssignRowLast(acc: map<Key, string>, head: Row, row: Row, n: nat, c: nat)
    requires 1 <= n <= |row| && |row| <= |head|
    requires 1 <= c < n && forall c' :: c < c' < n ==> head[c'] != head[c]
    ensures (row[0], head[c]) in AssignRow(acc, head, row, n)
    ensures AssignRow(acc, head, row, n)[(row[0], head[c])] == row[c]
  {
    if c < n - 1 {
      AssignRowLast(acc, head, row, n - 1, c);
    }
  }

  /** A key the row does not write keeps its value. */
  lemma {:induction false} AssignRowKeeps(acc: map<Key, string>, head: Row, row: Row, n: nat, key: Key)
    requires 1 <= n <= |row| && |row| <= |head|
    requires key in acc && forall c :: 1 <= c < n ==> key != (row[0], head[c])
    ensures key in AssignRow(acc, head, row, n) && AssignRow(acc, head, row, n)[key] == acc[key]
  {
    if n > 1 {
      AssignRowKeeps(acc, head, row, n - 1, key);
    }
  }

  /** The row loop of `parse_soup_table` from row `i` on, after the header. */
  function BodyFrom(acc: map<Key, string>, t: Table, i: nat): Result<map<Key, string>, YahooError>
    requires 1 <= i <= |t|
    decreases |t| - i
  {
    if i == |t| then Success(acc)
    else if |t[i]| <= 1 then BodyFrom(acc, t, i + 1)
    else if |t[i]| > |t[0]| then Failure(IndexError)
    else BodyFrom(AssignRow(acc, t[0], t[i], |t[i]|), t, i + 1)
  }

  /** The rows from `i` on fail, with `IndexError`, exactly when one of them
      is wider than the header. */
  lemma {:induction false} BodyFromFails(acc: map<Key, string>, t: Table, i: nat)
    requires 1 <= i <= |t|
    ensures var r := BodyFrom(acc, t, i);
            (r.Failure? <==> exists j :: i <= j < |t| && 1 < |t[j]| && |t[0]| < |t[j]|)
            && (r.Failure? ==> r.error == IndexError)
    decreases |t| - i
  {
    if i < |t| {
      BodyFromFails(acc, t, i + 1);
      if 1 < |t[i]| <= |t[0]| {
        BodyFromFails(AssignRow(acc, t[0], t[i], |t[i]|), t, i + 1);
      }
    }
  }

  /** The keys after the rows from `i` on: those before, and those the rows
      write. */
  lemma {:induction false} BodyFromKeys(acc: map<Key, string>, t: Table, i: nat)
    requires 1 <= i <= |t|
    ensures var r := BodyFrom(acc, t, i);
            r.Success? ==> forall key :: key in r.value <==> key in acc || exists j, c :: i <= j && Writes(t, j, c, key)
    decreases |t| - i
  {
    if i < |t| {
      if |t[i]| <= 1 {
        BodyFromKeys(acc, t, i + 1);
        var r := BodyFrom(acc, t, i + 1);
        if r.Success? {
          forall j, c, key | i <= j && Writes(t, j, c, key)
            ensures i + 1 <= j
          {
          }
        }
      } else if |t[i]| <= |t[0]| {
        var row := t[i];
        var acc' := AssignRow(acc, t[0], row, |row|);
        AssignRowKeys(acc, t[0], row, |row|);
        BodyFromKeys(acc', t, i + 1);
        var r := BodyFrom(acc', t, i + 1);
        if r.Success? {
          forall key | key in r.value
            ensures key in acc || exists j, c :: i <= j && Writes(t, j, c, key)
          {
            if key !in acc && !(exists j, c :: i + 1 <= j && Writes(t, j, c, key)) {
              var c :| 1 <= c < |row| && key == (row[0], t[0][c]);
              assert Writes(t, i, c, key);
            }
          }
          forall key | key in acc || exists j, c :: i <= j && Writes(t, j, c, key)
            ensures key in r.value
          {
            if key !in acc && !(exists j, c :: i + 1 <= j && Writes(t, j, c, key)) {
              var j, c :| i <= j && Writes(t, j, c, key);
              assert key == (row[0], t[0][c]) && 1 <= c < |row|;
            }
          }
        }
      }
    }
  }

  /** A key no row from `i` on writes keeps its value. */
  lemma {:induction false} BodyFromUntouched(acc: map<Key, string>, t: Table, i: nat, key: Key)
    requires 1 <= i <= |t|
    requires key in acc && forall j, c :: i <= j ==> !Writes(t, j, c, key)
    ensures var r := BodyFrom(acc, t, i);
            r.Success? ==> key in r.value && r.value[key] == acc[key]
    decreases |t| - i
  {
    if i < |t| {
      if |t[i]| <= 1 {
        BodyFromUntouched(acc, t, i + 1, key);
      } else if |t[i]| <= |t[0]| {
        var row := t[i];
        forall c | 1 <= c < |row| ensures key != (row[0], t[0][c]) {
          assert Writes(t, i, c, key) <==> key == (row[0], t[0][c]);
        }
        AssignRowKeeps(acc, t[0], row, |row|, key);
        BodyFromUntouched(AssignRow(acc, t[0], row, |row|), t, i + 1, key);
      }
    }
  }

  /** The last write of a key, in reading order, gives its value. */
  lemma {:induction false} BodyFromLast(acc: map<Key, string>, t: Table, i: nat, j: nat, c: nat, key: Key)
    requires 1 <= i <= j && Writes(t, j, c, key) && LastWrite(t, j, c, key)
    ensures var r := BodyFrom(acc, t, i);
            r.Success? ==> key in r.value && r.value[key] == t[j][c]
    decreases |t| - i
  {
    if |t[i]| <= 1 {
      BodyFromLast(acc, t, i + 1, j, c, key);
    } else if |t[i]| <= |t[0]| {
      var row := t[i];
      var acc' := AssignRow(acc, t[0], row, |row|);
      if j == i {
        forall c' | c < c' < |row| ensures t[0][c'] != t[0][c] {
          assert Writes(t, i, c', key) <==> t[0][c'] == t[0][c];
        }
        AssignRowLast(acc, t[0], row, |row|, c);
        assert forall j', c' :: i + 1 <= j' ==> !Writes(t, j', c', key);
        BodyFromUntouched(acc', t, i + 1, key);
      } else {
        BodyFromLast(acc', t, i + 1, j, c, key);
      }
    }
  }

  /** `parse_soup_table(table)`: the first row gives the headings (its
      cells after the first); an empty table gives an empty result. */
  function ParseSoupTable(t: Table): Result<Statement, YahooError> {
    if t == [] then Success(Statement(map[], []))
    else if t[0] == [] then Failure(StopIteration)
    else match BodyFrom(map[], t, 1)
      case Success(m) => Success(Statement(m, t[0][1..]))
      case Failure(e) => Failure(e)
  }

  /** An empty header row raises `StopIteration`, a row wider than the header
      raises `IndexError`; otherwise the headings are the header's cells
      after the first, the keys are exactly the (name, heading) pairs some
      row writes, each holds the text of its last write, and every key's
      year is one of the headings. */
  lemma ParseSoupTableSpec(t: Table)
    ensures var r := ParseSoupTable(t);
            (r.Failure? && r.error == StopIteration <==> t != [] && t[0] == [])
            && (r.Failure? && r.error == IndexError <==>
                  t != [] && t[0] != [] && exists j :: 1 <= j < |t| && 1 < |t[j]| && |t[0]| < |t[j]|)
            && (r.Failure? ==> r.error != KeyError)
            && (r.Success? ==> r.value.years == if t == [] then [] else t[0][1..])
            && (r.Success? ==> forall key :: key in r.value.values <==> exists j, c :: Writes(t, j, c, key))
            && (r.Success? ==> forall j, c, key :: Writes(t, j, c, key) && LastWrite(t, j, c, key) ==>
                                 r.value.values[key] == t[j][c])
            && (r.Success? ==> forall key :: key in r.value.values ==> key.1 in r.value.years)
  {
    if t != [] && t[0] != [] {
      BodyFromFails(map[], t, 1);
      BodyFromKeys(map[], t, 1);
      var r := ParseSoupTable(t);
      if r.Success? {
        forall j, c, key | Writes(t, j, c, key) && LastWrite(t, j, c, key)
          ensures r.value.values[key] == t[j][c]
        {
          BodyFromLast(map[], t, 1, j, c, key);
        }
        forall key | key in r.value.values ensures key.1 in r.value.years {
          var j, c :| 1 <= j && Writes(t, j, c, key);
          assert t[0][1..][c - 1] == t[0][c];
        }
      }
    }
  }

  /** The loop of `get_value` over the first `n` years. */
  function ValuesUpTo(doc: map<Key, string>, years: seq<string>, value: string, n: nat): Result<map<string, string>, YahooError>
    requires n <= |years|
  {
    if n == 0 then Success(map[])
    else match ValuesUpTo(doc, years, value, n - 1)
      case Failure(e) => Failure(e)
      case Success(m) =>
        var key := (value, years[n - 1]);
        if key in doc then Success(m[years[n - 1] := doc[key]]) else Failure(KeyError)
  }

  /** `get_value(doc, years, value)`: the row `value`, keyed by year. */
  function GetValue(doc: map<Key, string>, years: seq<string>, value: string): Result<map<string, string>, YahooError> {
    ValuesUpTo(doc, years, value, |years|)
  }

  /** The loop fails, with `KeyError`, exactly when some year's key is
      missing; otherwise its keys are the years and each holds the entry. */
  lemma {:induction false} ValuesUpToSpec(doc: map<Key, string>, years: seq<string>, value: string, n: nat)
    requires n <= |years|
    ensures var r := ValuesUpTo(doc, years, value, n);
            (r.Success? <==> forall k :: 0 <= k < n ==> (value, years[k]) in doc)
            && (r.Failure? ==> r.error == KeyError)
            && (r.Success? ==> forall y :: y in r.value <==> y in years[..n])
            && (r.Success? ==> forall y :: y in r.value ==> (value, y) in doc && r.value[y] == doc[(value, y)])
  {
    if n > 0 {
      ValuesUpToSpec(doc, years, value, n - 1);
      assert years[..n] == years[..n - 1] + [years[n - 1]];
    }
  }

  /** `get_value` succeeds exactly when every year has an entry for the
      name; its keys are then exactly the years, each with its entry. */
  lemma GetValueSpec(doc: map<Key, string>, years: seq<string>, value: string)
    ensures var r := GetValue(doc, years, value);
            (r.Success? <==> forall y :: y in years ==> (value, y) in doc)
            && (r.Failure? ==> r.error == KeyError)
            && (r.Success? ==> forall y :: y in r.value <==> y in years)
            && (r.Success? ==> forall y :: y in r.value ==> r.value[y] == doc[(value, y)])
  {
    ValuesUpToSpec(doc, years, value, |years|);
    assert years[..|years|] == years;
  }

  /** Reading a row back: with distinct headings and a name used by one
      row only, as wide as the header, `get_value` of that name after
      `parse_soup_table` gives back the row's cells under their headings. */
  lemma ParseThenGetValue(t: Table, j: nat)
    requires ParseSoupTable(t).Success?
    requires 1 <= j < |t| && 1 < |t[j]| == |t[0]|
    requires forall a, b :: 1 <= a < b < |t[0]| ==> t[0][a] != t[0][b]
    requires forall k :: 1 <= k < |t| && k != j && 1 < |t[k]| ==> t[k][0] != t[j][0]
    ensures var st := ParseSoupTable(t).value;
            var r := GetValue(st.values, st.years, t[j][0]);
            r.Success? && forall c :: 1 <= c < |t[0]| ==> t[0][c] in r.value && r.value[t[0][c]] == t[j][c]
  {
    ParseSoupTableSpec(t);
    var st := ParseSoupTable(t).value;
    var name := t[j][0];
    forall c | 1 <= c < |t[0]|
      ensures (name, t[0][c]) in st.values && st.values[(name, t[0][c])] == t[j][c]
    {
      assert Writes(t, j, c, (name, t[0][c]));
      assert LastWrite(t, j, c, (name, t[0][c]));
    }
    forall y | y in st.years ensures (name, y) in st.values {
      var c :| 0 <= c < |t[0][1..]| && t[0][1..][c] == y;
      assert t[0][c + 1] == y;
    }
    GetValueSpec(st.values, st.years, name);
    forall c | 1 <= c < |t[0]| ensures t[0][c] in st.years {
      assert st.years[c - 1] == t[0][c];
    }
  }
}
