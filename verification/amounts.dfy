/** The numeric cell parser and value-row extractor: the per-cell body and
    the cell loop of `get_net_incomes` in netIncome.py. The `parent` ascent
    from the anchor cell to its `tr` is the anchor's row index. */
module Amounts {
  import opened Wrappers
  import opened PyStr
  import opened Tables

  /** The cell text after `replace(',', '')` and `replace('\n', '')`: the
      text whose first character decides the sign. */
  function AmountText(raw: string): string {
    RemoveChar(RemoveChar(raw, ','), '\n')
  }

  /** The text tested with `isdigit()`: parentheses removed, then stripped. */
  function AmountDigits(raw: string): string {
    Strip(RemoveChar(RemoveChar(AmountText(raw), '('), ')'))
  }

  /** One cell of `get_net_incomes`: None for a cell that is skipped;
      otherwise the digits' value, negated when the text (before any strip)
      opens with `(`. */
  function ParseAmount(raw: string): Option<int> {
    var text := AmountText(raw);
    if |text| == 0 then None
    else
      var sign := if text[0] == '(' then -1 else 1;
      var digits := Strip(RemoveChar(RemoveChar(text, '('), ')'));
      if IsDigits(digits) then Some(sign * DigitsValue(digits)) else None
  }

  /** A cell parses exactly when its cleaned text is a digit string; the
      magnitude is that digit string's value, and the result is negative only
      when the text, before stripping, opens with `(` (and never positive
      then). */
  lemma ParseAmountSign(raw: string)
    ensures ParseAmount(raw).Some? <==> IsDigits(AmountDigits(raw))
    ensures ParseAmount(raw).Some? ==>
      var v := ParseAmount(raw).value;
      (v == DigitsValue(AmountDigits(raw)) || v == -(DigitsValue(AmountDigits(raw)) as int))
      && (v < 0 ==> AmountText(raw)[0] == '(')
      && (AmountText(raw)[0] == '(' ==> v <= 0)
  {
    if AmountText(raw) == [] {
      assert RemoveChar(RemoveChar(AmountText(raw), '('), ')') == [];
    }
  }

  /** A character the parser neither removes nor strips stays in the text
      tested with `isdigit()`. */
  lemma AmountDigitsKeeps(raw: string, c: char)
    requires c in raw && !IsSpace(c) && c !in ",()"
    ensures c in AmountDigits(raw)
  {
    assert c != '\n' by { assert IsSpace('\n'); }
    RemoveCharMembers(raw, ',');
    RemoveCharMembers(RemoveChar(raw, ','), '\n');
    var text := AmountText(raw);
    RemoveCharMembers(text, '(');
    RemoveCharMembers(RemoveChar(text, '('), ')');
    StripKeepsNonSpace(RemoveChar(RemoveChar(text, '('), ')'), c);
  }

  /** A character other than a digit, a thousands separator, a parenthesis
      or whitespace makes the cell non-numeric: label cells such as
      "Net income" are skipped. */
  lemma ParseAmountRejectsText(raw: string, k: nat)
    requires k < |raw|
    requires !IsDigit(raw[k]) && !IsSpace(raw[k]) && raw[k] !in ",()"
    ensures ParseAmount(raw) == None
  {
    AmountDigitsKeeps(raw, raw[k]);
    assert !IsDigits(AmountDigits(raw));
    ParseAmountSign(raw);
  }

  /** ParseAmount in terms of its intermediate texts. */
  lemma ParseAmountBy(raw: string, text: string, d: string)
    requires AmountText(raw) == text && text != []
    requires Strip(RemoveChar(RemoveChar(text, '('), ')')) == d
    ensures IsDigits(d) ==> ParseAmount(raw) == Some((if text[0] == '(' then -1 else 1) * DigitsValue(d))
    ensures !IsDigits(d) ==> ParseAmount(raw) == None
  {
  }

  /** Removing a character from a string that ends with it and has it nowhere
      else drops exactly the last position. */
  lemma {:induction false} RemoveCharAppendLast(s: string, c: char)
    requires c !in s
    ensures RemoveChar(s + [c], c) == s
  {
    if s == [] {
      assert [c][1..] == [];
    } else {
      assert (s + [c])[1..] == s[1..] + [c];
      RemoveCharAppendLast(s[1..], c);
    }
  }

  /** A digit string has none of the characters the parser removes. */
  lemma DigitsFree(d: string)
    requires IsDigits(d)
    ensures ',' !in d && '\n' !in d && '(' !in d && ')' !in d && Stripped(d)
  {
    assert forall c :: c in d ==> IsDigit(c);
  }

  /** The decimal spelling of a number reads back as that number. */
  lemma ParseAmountDecimal(n: nat)
    ensures ParseAmount(Decimal(n)) == Some(n)
  {
    var d := Decimal(n);
    DecimalRoundTrip(n);
    DigitsFree(d);
    RemoveAbsentChar(d, ',');
    RemoveAbsentChar(d, '\n');
    RemoveAbsentChar(d, '(');
    RemoveAbsentChar(d, ')');
    StripStripped(d);
    assert d[0] != '(';
    ParseAmountBy(d, d, d);
  }

  /** The texts the parser derives from a digit string in parentheses. */
  lemma ParenthesizedTexts(d: string)
    requires IsDigits(d)
    ensures AmountText("(" + d + ")") == "(" + d + ")"
    ensures Strip(RemoveChar(RemoveChar("(" + d + ")", '('), ')')) == d
  {
    DigitsFree(d);
    var p := "(" + d + ")";
    assert p == ['('] + (d + [')']);
    assert ',' !in p && '\n' !in p;
    RemoveAbsentChar(p, ',');
    RemoveAbsentChar(p, '\n');
    assert RemoveChar(p, '(') == d + [')'] by {
      assert p[1..] == d + [')'];
      assert '(' !in d + [')'];
      RemoveAbsentChar(d + [')'], '(');
    }
    RemoveCharAppendLast(d, ')');
    StripStripped(d);
  }

  /** The texts the parser derives from a digit string in parentheses after
      a space. */
  lemma SpacedParenthesizedTexts(d: string)
    requires IsDigits(d)
    ensures AmountText(" (" + d + ")") == " (" + d + ")"
    ensures Strip(RemoveChar(RemoveChar(" (" + d + ")", '('), ')')) == d
  {
    DigitsFree(d);
    var p := " (" + d + ")";
    assert p == [' '] + (['('] + (d + [')']));
    assert ',' !in p && '\n' !in p;
    RemoveAbsentChar(p, ',');
    RemoveAbsentChar(p, '\n');
    var q := [' '] + d;
    assert RemoveChar(p, '(') == q + [')'] by {
      assert p[1..] == ['('] + (d + [')']);
      assert p[1..][1..] == d + [')'];
      assert '(' !in d + [')'];
      RemoveAbsentChar(d + [')'], '(');
    }
    assert ')' !in q;
    RemoveCharAppendLast(q, ')');
    assert StripLeft(q) == d by {
      assert q[1..] == d;
    }
    StripStripped(d);
  }

  /** In parentheses, the decimal spelling of a number reads back as its
      negation: the accounting convention for losses. */
  lemma ParseAmountParenthesized(n: nat)
    ensures ParseAmount("(" + Decimal(n) + ")") == Some(-(n as int))
  {
    var d := Decimal(n);
    ParenthesizedTexts(d);
    DecimalRoundTrip(n);
    ParseAmountBy("(" + d + ")", "(" + d + ")", d);
  }

  /** The sign is read before the text is stripped: a space before the
      opening parenthesis makes `" (50)"` positive. */
  lemma LeadingSpaceKeepsSign(n: nat)
    ensures ParseAmount(" (" + Decimal(n) + ")") == Some(n)
  {
    var d := Decimal(n);
    SpacedParenthesizedTexts(d);
    DecimalRoundTrip(n);
    ParseAmountBy(" (" + d + ")", " (" + d + ")", d);
  }

  /** The parse depends on the cell text only through `AmountText`. */
  lemma ParseAmountOfText(x: string, y: string)
    requires AmountText(x) == AmountText(y)
    ensures ParseAmount(x) == ParseAmount(y)
  {
  }

  /** Thousands separators and line breaks are ignored wherever they stand. */
  lemma ParseAmountIgnoresSeparators(a: string, b: string)
    ensures ParseAmount(a + "," + b) == ParseAmount(a + b)
    ensures ParseAmount(a + "\n" + b) == ParseAmount(a + b)
  {
    AmountTextIgnoresSeparators(a, b);
    ParseAmountOfText(a + "," + b, a + b);
    ParseAmountOfText(a + "\n" + b, a + b);
  }

  lemma AmountTextIgnoresSeparators(a: string, b: string)
    ensures AmountText(a + "," + b) == AmountText(a + b)
    ensures AmountText(a + "\n" + b) == AmountText(a + b)
  {
    RemoveDroppedAt(a, b, ',');
    RemoveCharAppend(a, b, ',');
    var ra, rb := RemoveChar(a, ','), RemoveChar(b, ',');
    assert RemoveChar(a + "\n" + b, ',') == ra + "\n" + rb by {
      RemoveKeptAt(a, b, '\n', ',');
    }
    assert RemoveChar(ra + "\n" + rb, '\n') == RemoveChar(ra + rb, '\n') by {
      RemoveDroppedAt(ra, rb, '\n');
    }
  }

  /** Removing `c` from `a + [c] + b` is removing it from `a + b`. */
  lemma RemoveDroppedAt(a: string, b: string, c: char)
    ensures RemoveChar(a + [c] + b, c) == RemoveChar(a + b, c)
  {
    assert a + [c] + b == a + ([c] + b);
    RemoveCharAppend(a, [c] + b, c);
    RemoveCharAppend([c], b, c);
    assert RemoveChar([c], c) == [] by { assert [c][1..] == []; }
    RemoveCharAppend(a, b, c);
  }

  /** Removing `c` from `a + [k] + b`, for `k != c`, keeps `k` in place. */
  lemma RemoveKeptAt(a: string, b: string, k: char, c: char)
    requires k != c
    ensures RemoveChar(a + [k] + b, c) == RemoveChar(a, c) + [k] + RemoveChar(b, c)
  {
    assert a + [k] + b == a + ([k] + b);
    RemoveCharAppend(a, [k] + b, c);
    assert ([k] + b)[1..] == b;
  }

  /** The value of the digit string "1234". */
  lemma DigitsValue1234()
    ensures IsDigits("1234") && DigitsValue("1234") == 1234
  {
    assert "1234"[..3] == "123";
    assert "123"[..2] == "12";
    assert "12"[..1] == "1";
    assert "1"[..0] == "";
  }

  /** "(1234)" reads as -1234. */
  lemma ParenthesizedExample()
    ensures ParseAmount("(" + "1234" + ")") == Some(-1234)
  {
    DigitsValue1234();
    ParenthesizedTexts("1234");
    var p := "(" + "1234" + ")";
    ParseAmountBy(p, p, "1234");
  }

  /** A thousands separator inside parentheses: "(1,234)" reads as -1234. */
  lemma ParseAmountExample()
    ensures ParseAmount("(1,234)") == Some(-1234)
  {
    ExampleTexts();
    ParseAmountIgnoresSeparators("(1", "234)");
    ParenthesizedExample();
  }

  /** How "(1,234)" splits around its separator. */
  lemma ExampleTexts()
    ensures "(1,234)" == "(1" + "," + "234)"
    ensures "(1" + "234)" == "(" + "1234" + ")"
  {
  }

  /** The values of the cells `f` parses, in column order; cells it rejects
      are dropped, not kept as gaps. */
  function Parsed(f: string -> Option<int>, row: Row): (r: seq<int>)
    ensures |r| <= |row|
  {
    if row == [] then []
    else
      match f(row[0])
      case Some(v) => [v] + Parsed(f, row[1..])
      case None => Parsed(f, row[1..])
  }

  /** The values are exactly the parsed cells: every parsed cell's value is
      kept, and nothing else appears. */
  lemma {:induction false} ParsedMembers(f: string -> Option<int>, row: Row)
    ensures forall i :: 0 <= i < |row| && f(row[i]).Some? ==> f(row[i]).value in Parsed(f, row)
    ensures forall x :: x in Parsed(f, row) ==> exists i :: 0 <= i < |row| && f(row[i]) == Some(x)
  {
    if row != [] {
      ParsedMembers(f, row[1..]);
      assert forall i :: 1 <= i < |row| ==> row[i] == row[1..][i - 1];
      forall x | x in Parsed(f, row)
        ensures exists i :: 0 <= i < |row| && f(row[i]) == Some(x)
      {
        if f(row[0]) != Some(x) {
          assert x in Parsed(f, row[1..]);
          var i :| 0 <= i < |row[1..]| && f(row[1..][i]) == Some(x);
          assert f(row[i + 1]) == Some(x);
        }
      }
    }
  }

  /** Column order: the values of a row split in two are the values of the
      left part followed by those of the right part. */
  lemma {:induction false} ParsedAppend(f: string -> Option<int>, a: Row, b: Row)
    ensures Parsed(f, a + b) == Parsed(f, a) + Parsed(f, b)
  {
    if a == [] {
      assert a + b == b;
    } else {
      assert (a + b)[0] == a[0];
      assert (a + b)[1..] == a[1..] + b;
      ParsedAppend(f, a[1..], b);
    }
  }

  /** `get_net_incomes` over one row. */
  function RowAmounts(row: Row): (r: seq<int>)
    ensures |r| <= |row|
  {
    Parsed(ParseAmount, row)
  }

  /** Every numeric cell of the row contributes its value and nothing else
      does. */
  lemma RowAmountsMembers(row: Row)
    ensures forall i :: 0 <= i < |row| && ParseAmount(row[i]).Some? ==> ParseAmount(row[i]).value in RowAmounts(row)
    ensures forall x :: x in RowAmounts(row) ==> exists i :: 0 <= i < |row| && ParseAmount(row[i]) == Some(x)
  {
    ParsedMembers(ParseAmount, row);
  }

  /** The value row of an anchor: the amounts of the row holding it. */
  function NetIncomes(t: Table, a: Anchor): (r: seq<int>)
    requires ValidAnchor(t, a)
    ensures |r| <= |t[a.row]|
  {
    RowAmounts(t[a.row])
  }
}
