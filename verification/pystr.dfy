/** The handful of Python `str` operations the scraper relies on, restated
    over `seq<char>`: `strip`, `replace(c, '')`, `split(c)[0]`, `isdigit`
    and `int`. Digits are the ASCII digits only. */
module PyStr {

  /** Python's `str.isspace()` for one character: the code points of
      Unicode category Zs and bidirectional classes WS, B and S. */
  predicate IsSpace(c: char) {
    var n := c as int;
    n == 0x20 || (0x09 <= n <= 0x0D) || (0x1C <= n <= 0x1F) || n == 0x85 || n == 0xA0
    || n == 0x1680 || (0x2000 <= n <= 0x200A) || n == 0x2028 || n == 0x2029
    || n == 0x202F || n == 0x205F || n == 0x3000
  }

  predicate AllSpace(s: string) {
    forall i :: 0 <= i < |s| ==> IsSpace(s[i])
  }

  /** No whitespace at either end: what `strip()` leaves behind. */
  predicate Stripped(s: string) {
    s == [] || (!IsSpace(s[0]) && !IsSpace(s[|s| - 1]))
  }

  /** `s.lstrip()` */
  function StripLeft(s: string): (r: string)
    ensures |r| <= |s| && r == s[|s| - |r|..]
    ensures AllSpace(s[..|s| - |r|])
    ensures r == [] || !IsSpace(r[0])
  {
    if s == [] || !IsSpace(s[0]) then s else StripLeft(s[1..])
  }

  /** `s.rstrip()` */
  function StripRight(s: string): (r: string)
    ensures |r| <= |s| && r == s[..|r|]
    ensures AllSpace(s[|r|..])
    ensures r == [] || !IsSpace(r[|r| - 1])
  {
    if s == [] || !IsSpace(s[|s| - 1]) then s else StripRight(s[..|s| - 1])
  }

  /** `s.strip()`: `s` without its leading and trailing whitespace. */
  function Strip(s: string): (r: string)
    ensures Stripped(r)
  {
    StripRight(StripLeft(s))
  }

  /** Whitespace throughout a prefix is whitespace at each of its positions. */
  lemma AllSpacePrefix(s: string, i: nat)
    requires i <= |s| && AllSpace(s[..i])
    ensures forall m :: 0 <= m < i ==> IsSpace(s[m])
  {
    forall m | 0 <= m < i
      ensures IsSpace(s[m])
    {
      assert s[m] == s[..i][m];
    }
  }

  /** Whitespace throughout a suffix is whitespace at each of its positions. */
  lemma AllSpaceSuffix(s: string, j: nat)
    requires j <= |s| && AllSpace(s[j..])
    ensures forall m :: j <= m < |s| ==> IsSpace(s[m])
  {
    forall m | j <= m < |s|
      ensures IsSpace(s[m])
    {
      assert s[m] == s[j..][m - j];
    }
  }

  /** `r` is the infix of `s` from `i` on, and `s` holds only whitespace
      outside it. */
  predicate TrimmedAt(r: string, s: string, i: nat) {
    i + |r| <= |s| && r == s[i..i + |r|] && AllSpace(s[..i]) && AllSpace(s[i + |r|..])
  }

  /** Slicing a suffix again is slicing the whole string. */
  lemma SuffixSlices(s: string, i: nat, n: nat)
    requires i + n <= |s|
    ensures s[i..][..n] == s[i..i + n]
    ensures s[i..][n..] == s[i + n..]
  {
  }

  /** What `strip()` removes is whitespace only: the result is the infix of
      `s` that starts at some `i`, with nothing but whitespace around it. */
  lemma StripIsInfix(s: string) returns (i: nat)
    ensures TrimmedAt(Strip(s), s, i)
  {
    var l := StripLeft(s);
    var r := StripRight(l);
    i := |s| - |l|;
    SuffixSlices(s, i, |r|);
  }

  /** Every character of `strip(s)` occurs in `s`. */
  lemma StripMembers(s: string)
    ensures forall c :: c in Strip(s) ==> c in s
  {
    var i := StripIsInfix(s);
    var r := Strip(s);
    forall c | c in r ensures c in s {
      var k :| 0 <= k < |r| && r[k] == c;
      assert s[i + k] == c;
    }
  }

  /** A character of `s` that is not whitespace lies in any infix of `s`
      that only whitespace surrounds. */
  lemma InfixKeeps(s: string, r: string, i: nat, c: char)
    requires TrimmedAt(r, s, i)
    requires c in s && !IsSpace(c)
    ensures c in r
  {
    var j :| 0 <= j < |s| && s[j] == c;
    AllSpacePrefix(s, i);
    AllSpaceSuffix(s, i + |r|);
    assert i <= j < i + |r|;
    assert r[j - i] == c;
  }

  /** `strip()` keeps every character that is not whitespace. */
  lemma StripKeepsAll(s: string)
    ensures forall c :: c in s && !IsSpace(c) ==> c in Strip(s)
  {
    forall c | c in s && !IsSpace(c) ensures c in Strip(s) {
      StripKeepsNonSpace(s, c);
    }
  }

  /** A non-space character survives the strip. */
  lemma StripKeepsNonSpace(s: string, c: char)
    requires c in s && !IsSpace(c)
    ensures c in Strip(s)
  {
    var i := StripIsInfix(s);
    InfixKeeps(s, Strip(s), i, c);
  }

  /** Stripping a string that has no whitespace at its ends changes nothing. */
  lemma {:induction false} StripStripped(s: string)
    requires Stripped(s)
    ensures Strip(s) == s
  {
  }

  /** `s.replace(c, '')`: every occurrence of `c` removed, the rest kept in order. */
  function RemoveChar(s: string, c: char): (r: string)
    ensures |r| <= |s|
  {
    if s == [] then []
    else if s[0] == c then RemoveChar(s[1..], c)
    else [s[0]] + RemoveChar(s[1..], c)
  }

  /** `replace(c, '')` keeps exactly the characters other than `c`. */
  lemma {:induction false} RemoveCharMembers(s: string, c: char)
    ensures forall x :: x in RemoveChar(s, c) <==> x in s && x != c
  {
    if s != [] {
      RemoveCharMembers(s[1..], c);
      assert forall x :: x in s <==> x == s[0] || x in s[1..];
    }
  }

  /** `replace` works piecewise: on a concatenation it is the concatenation
      of the pieces' results. */
  lemma {:induction false} RemoveCharAppend(a: string, b: string, c: char)
    ensures RemoveChar(a + b, c) == RemoveChar(a, c) + RemoveChar(b, c)
  {
    if a == [] {
      assert a + b == b;
    } else {
      assert (a + b)[0] == a[0];
      assert (a + b)[1..] == a[1..] + b;
      RemoveCharAppend(a[1..], b, c);
    }
  }

  /** Removing a character that does not occur is the identity. */
  lemma {:induction false} RemoveAbsentChar(s: string, c: char)
    requires c !in s
    ensures RemoveChar(s, c) == s
  {
    if s != [] {
      RemoveAbsentChar(s[1..], c);
    }
  }

  /** `s.split(c)[0]`: the prefix of `s` before the first `c`, or all of `s`. */
  function PrefixBefore(s: string, c: char): (r: string)
    ensures |r| <= |s| && r == s[..|r|]
    ensures c !in r
    ensures |r| == |s| || s[|r|] == c
  {
    if s == [] then []
    else if s[0] == c then []
    else [s[0]] + PrefixBefore(s[1..], c)
  }

  /** Every character of the prefix occurs in the whole string. */
  lemma PrefixBeforeMembers(s: string, c: char)
    ensures forall x :: x in PrefixBefore(s, c) ==> x in s
  {
    var r := PrefixBefore(s, c);
    forall x | x in r ensures x in s {
      var k :| 0 <= k < |r| && r[k] == x;
      assert s[k] == x;
    }
  }

  /** Splitting a string at a character it does not contain returns it whole. */
  lemma {:induction false} PrefixBeforeAbsent(s: string, c: char)
    requires c !in s
    ensures PrefixBefore(s, c) == s
  {
  }

  /** `s.replace(',', ', ')` */
  function SpaceAfterCommas(s: string): (r: string)
    ensures |r| == |s| + |s| - |RemoveChar(s, ',')|
  {
    if s == [] then []
    else if s[0] == ',' then ", " + SpaceAfterCommas(s[1..])
    else [s[0]] + SpaceAfterCommas(s[1..])
  }

  predicate IsDigit(c: char) {
    '0' <= c <= '9'
  }

  /** `s.isdigit()`: non-empty and every character a digit. */
  predicate IsDigits(s: string) {
    |s| > 0 && forall i :: 0 <= i < |s| ==> IsDigit(s[i])
  }

  /** `int(s)` for a digit string, read most significant digit first. */
  function DigitsValue(s: string): (n: nat)
    requires forall i :: 0 <= i < |s| ==> IsDigit(s[i])
  {
    if s == [] then 0
    else
      assert IsDigit(s[|s| - 1]);
      DigitsValue(s[..|s| - 1]) * 10 + (s[|s| - 1] as int - '0' as int)
  }

  /** The decimal spelling of a natural number, without leading zeros. */
  function Decimal(n: nat): (s: string)
    ensures IsDigits(s)
  {
    if n < 10 then [('0' as int + n) as char]
    else Decimal(n / 10) + [('0' as int + n % 10) as char]
  }

  /** `int(str(n)) == n`: reading back a decimal spelling gives the number. */
  lemma {:induction false} DecimalRoundTrip(n: nat)
    ensures DigitsValue(Decimal(n)) == n
  {
    var s := Decimal(n);
    if n >= 10 {
      DecimalRoundTrip(n / 10);
      assert s[..|s| - 1] == Decimal(n / 10);
    }
  }
}
