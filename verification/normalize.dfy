/** Cell-text normalisation, in the two variants the repository carries:
    `get_cell_text` of netIncome.py (newlines removed, then stripped), the
    variant of scraper.py (also cut at the first `(`), and `get_useable_text`
    (the prefix before the first `(`). A cell is its `get_text()` string:
    an empty cell's first child has no more text than the cell itself, so the
    fallback to `cell.contents[0]` cannot change the result. */
module Normalize {
  import opened PyStr

  /** netIncome.py `get_cell_text`: newlines removed, surrounding whitespace stripped. */
  function CellText(raw: string): (r: string)
    ensures '\n' !in r
    ensures Stripped(r)
    ensures forall c :: c in r ==> c in raw
    ensures forall c :: c in raw && !IsSpace(c) ==> c in r
  {
    RemoveCharMembers(raw, '\n');
    StripMembers(RemoveChar(raw, '\n'));
    assert IsSpace('\n');
    StripKeepsAll(RemoveChar(raw, '\n'));
    Strip(RemoveChar(raw, '\n'))
  }

  /** The normalised text is the newline-free text with only whitespace cut
      from its two ends. */
  lemma CellTextInfix(raw: string) returns (i: nat)
    ensures TrimmedAt(CellText(raw), RemoveChar(raw, '\n'), i)
  {
    i := StripIsInfix(RemoveChar(raw, '\n'));
  }

  /** Normalising an already normalised text changes nothing. */
  lemma CellTextIdempotent(raw: string)
    ensures CellText(CellText(raw)) == CellText(raw)
  {
    var t := CellText(raw);
    RemoveAbsentChar(t, '\n');
    StripStripped(t);
  }

  /** scraper.py `get_cell_text`: newlines removed, cut at the first `(`, stripped. */
  function CutCellText(raw: string): (r: string)
    ensures '\n' !in r && '(' !in r
    ensures Stripped(r)
    ensures forall c :: c in r ==> c in raw
    ensures forall c :: c in PrefixBefore(RemoveChar(raw, '\n'), '(') && !IsSpace(c) ==> c in r
  {
    RemoveCharMembers(raw, '\n');
    var p := PrefixBefore(RemoveChar(raw, '\n'), '(');
    PrefixBeforeMembers(RemoveChar(raw, '\n'), '(');
    StripMembers(p);
    StripKeepsAll(p);
    Strip(p)
  }

  /** The scraper's text is the part of the newline-free text before its
      first `(`, with only whitespace cut from its two ends. */
  lemma CutCellTextInfix(raw: string) returns (i: nat)
    ensures TrimmedAt(CutCellText(raw), PrefixBefore(RemoveChar(raw, '\n'), '('), i)
  {
    i := StripIsInfix(PrefixBefore(RemoveChar(raw, '\n'), '('));
  }

  /** The scraper variant is idempotent as well. */
  lemma CutCellTextIdempotent(raw: string)
    ensures CutCellText(CutCellText(raw)) == CutCellText(raw)
  {
    var t := CutCellText(raw);
    RemoveAbsentChar(t, '\n');
    PrefixBeforeAbsent(t, '(');
    StripStripped(t);
  }

  /** `get_useable_text`: the prefix before the first `(`, or the whole text. */
  function UseableText(s: string): (r: string)
    ensures '(' !in r
    ensures |r| <= |s| && r == s[..|r|]
    ensures |r| == |s| <==> '(' !in s
    ensures |r| < |s| ==> s[|r|] == '('
  {
    PrefixBefore(s, '(')
  }

  /** Cutting twice at `(` is cutting once. */
  lemma UseableTextIdempotent(s: string)
    ensures UseableText(UseableText(s)) == UseableText(s)
  {
    PrefixBeforeAbsent(UseableText(s), '(');
  }

  /** A text without `(` is already useable. */
  lemma UseableTextOfCut(raw: string)
    ensures UseableText(CutCellText(raw)) == CutCellText(raw)
  {
    PrefixBeforeAbsent(CutCellText(raw), '(');
  }
}
