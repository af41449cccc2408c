/** The character classes of the data modes: the alphanumeric charset of
    Table 5 of JIS X 0510:2004 with `getAlphanumericCode`, and the digits.
 */
module Charsets {

  /** The value of each character code below 0x60 in alphanumeric mode, -1
      for a character the mode cannot represent. */
  const AlphanumericTable: seq<int> :=
    [-1, -1, -1, -1, -1, -1, -1, -1, -1, -1, -1, -1, -1, -1, -1, -1] +  // 0x00-0x0f
    [-1, -1, -1, -1, -1, -1, -1, -1, -1, -1, -1, -1, -1, -1, -1, -1] +  // 0x10-0x1f
    [36, -1, -1, -1, 37, 38, -1, -1, -1, -1, 39, 40, -1, 41, 42, 43] +  // 0x20-0x2f
    [ 0,  1,  2,  3,  4,  5,  6,  7,  8,  9, 44, -1, -1, -1, -1, -1] +  // 0x30-0x3f
    [-1, 10, 11, 12, 13, 14, 15, 16, 17, 18, 19, 20, 21, 22, 23, 24] +  // 0x40-0x4f
    [25, 26, 27, 28, 29, 30, 31, 32, 33, 34, 35, -1, -1, -1, -1, -1]    // 0x50-0x5f

  /** The 45 characters of alphanumeric mode in the order of their values,
      as Table 5 of JIS X 0510:2004 lists them. */
  const AlphanumericCharset: string := "0123456789" + "ABCDEFGHIJKLM" + "NOPQRSTUVWXYZ" + " $%*+-./:"

  /** Entry `k` of the table is the code of character `k`. */
  predicate TableFacts(k: int)
    requires 0 <= k < |AlphanumericTable|
  {
    AlphanumericTable[k] == AlphanumericCode(k as char)
  }

  /** Character `i` of the charset has code `i`. */
  predicate CharsetFacts(i: int)
    requires 0 <= i < |AlphanumericCharset|
  {
    AlphanumericCode(AlphanumericCharset[i]) == i
  }

  lemma TableRow0(k: int)
    requires 0 <= k < 16
    ensures TableFacts(k)
  {
    match k
    case 0 =>
    case 1 =>
    case 2 =>
    case 3 =>
    case 4 =>
    case 5 =>
    case 6 =>
    case 7 =>
    case 8 =>
    case 9 =>
    case 10 =>
    case 11 =>
    case 12 =>
    case 13 =>
    case 14 =>
    case 15 =>
  }

  lemma TableRow1(k: int)
    requires 16 <= k < 32
    ensures TableFacts(k)
  {
    match k
    case 16 =>
    case 17 =>
    case 18 =>
    case 19 =>
    case 20 =>
    case 21 =>
    case 22 =>
    case 23 =>
    case 24 =>
    case 25 =>
    case 26 =>
    case 27 =>
    case 28 =>
    case 29 =>
    case 30 =>
    case 31 =>
  }

  lemma TableRow2(k: int)
    requires 32 <= k < 48
    ensures TableFacts(k)
  {
    match k
    case 32 =>
    case 33 =>
    case 34 =>
    case 35 =>
    case 36 =>
    case 37 =>
    case 38 =>
    case 39 =>
    case 40 =>
    case 41 =>
    case 42 =>
    case 43 =>
    case 44 =>
    case 45 =>
    case 46 =>
    case 47 =>
  }

  lemma TableRow3(k: int)
    requires 48 <= k < 64
    ensures TableFacts(k)
  {
    match k
    case 48 =>
    case 49 =>
    case 50 =>
    case 51 =>
    case 52 =>
    case 53 =>
    case 54 =>
    case 55 =>
    case 56 =>
    case 57 =>
    case 58 =>
    case 59 =>
    case 60 =>
    case 61 =>
    case 62 =>
    case 63 =>
  }

  lemma TableRow4(k: int)
    requires 64 <= k < 80
    ensures TableFacts(k)
  {
    match k
    case 64 =>
    case 65 =>
    case 66 =>
    case 67 =>
    case 68 =>
    case 69 =>
    case 70 =>
    case 71 =>
    case 72 =>
    case 73 =>
    case 74 =>
    case 75 =>
    case 76 =>
    case 77 =>
    case 78 =>
    case 79 =>
  }

  lemma TableRow5(k: int)
    requires 80 <= k < 96
    ensures TableFacts(k)
  {
    match k
    case 80 =>
    case 81 =>
    case 82 =>
    case 83 =>
    case 84 =>
    case 85 =>
    case 86 =>
    case 87 =>
    case 88 =>
    case 89 =>
    case 90 =>
    case 91 =>
    case 92 =>
    case 93 =>
    case 94 =>
    case 95 =>
  }

  lemma CharsetPart0(i: int)
    requires 0 <= i < 10
    ensures CharsetFacts(i)
  {
    match i
    case 0 =>
    case 1 =>
    case 2 =>
    case 3 =>
    case 4 =>
    case 5 =>
    case 6 =>
    case 7 =>
    case 8 =>
    case 9 =>
  }

  lemma CharsetPart1(i: int)
    requires 10 <= i < 23
    ensures CharsetFacts(i)
  {
    match i
    case 10 =>
    case 11 =>
    case 12 =>
    case 13 =>
    case 14 =>
    case 15 =>
    case 16 =>
    case 17 =>
    case 18 =>
    case 19 =>
    case 20 =>
    case 21 =>
    case 22 =>
  }

  lemma CharsetPart2(i: int)
    requires 23 <= i < 36
    ensures CharsetFacts(i)
  {
    match i
    case 23 =>
    case 24 =>
    case 25 =>
    case 26 =>
    case 27 =>
    case 28 =>
    case 29 =>
    case 30 =>
    case 31 =>
    case 32 =>
    case 33 =>
    case 34 =>
    case 35 =>
  }

  lemma CharsetPart3(i: int)
    requires 36 <= i < 45
    ensures CharsetFacts(i)
  {
    match i
    case 36 =>
    case 37 =>
    case 38 =>
    case 39 =>
    case 40 =>
    case 41 =>
    case 42 =>
    case 43 =>
    case 44 =>
  }

  lemma TableAt(k: int)
    requires 0 <= k < |AlphanumericTable|
    ensures TableFacts(k)
  {
    if k < 16 { TableRow0(k); }
    else if k < 32 { TableRow1(k); }
    else if k < 48 { TableRow2(k); }
    else if k < 64 { TableRow3(k); }
    else if k < 80 { TableRow4(k); }
    else { TableRow5(k); }
  }

  lemma CharsetAt(i: int)
    requires 0 <= i < |AlphanumericCharset|
    ensures CharsetFacts(i)
  {
    if i < 10 { CharsetPart0(i); }
    else if i < 23 { CharsetPart1(i); }
    else if i < 36 { CharsetPart2(i); }
    else { CharsetPart3(i); }
  }

  /** `getAlphanumericCode(c)`: the value of `c` in alphanumeric mode, or
      -1 for a character the mode cannot represent. It is written out by
      ranges here; `AlphanumericCodeMatchesTable` shows it is the lookup in
      the table. */
  function AlphanumericCode(c: char): (r: int)
    ensures -1 <= r < |AlphanumericCharset|
  {
    if '0' <= c <= '9' then c as int - '0' as int
    else if 'A' <= c <= 'Z' then c as int - 'A' as int + 10
    else if c == ' ' then 36
    else if c == '$' then 37
    else if c == '%' then 38
    else if c == '*' then 39
    else if c == '+' then 40
    else if c == '-' then 41
    else if c == '.' then 42
    else if c == '/' then 43
    else if c == ':' then 44
    else -1
  }

  /** The code is the table entry of the character, and -1 past the table. */
  lemma AlphanumericCodeMatchesTable(c: char)
    ensures AlphanumericCode(c) == if c as int < |AlphanumericTable| then AlphanumericTable[c as int] else -1
  {
    if c as int < |AlphanumericTable| {
      TableAt(c as int);
    }
  }

  /** No two characters share a code. */
  lemma CodeInjective(c1: char, c2: char)
    requires AlphanumericCode(c1) != -1 && AlphanumericCode(c1) == AlphanumericCode(c2)
    ensures c1 == c2
  {
  }

  /** The character whose alphanumeric value is `v`. */
  function AlphanumericChar(v: int): (c: char)
    requires 0 <= v < |AlphanumericCharset|
    ensures AlphanumericCode(c) == v
  {
    if v < 10 then ('0' as int + v) as char
    else if v < 36 then ('A' as int + v - 10) as char
    else if v == 36 then ' '
    else if v == 37 then '$'
    else if v == 38 then '%'
    else if v == 39 then '*'
    else if v == 40 then '+'
    else if v == 41 then '-'
    else if v == 42 then '.'
    else if v == 43 then '/'
    else ':'
  }

  /** `AlphanumericChar` inverts `AlphanumericCode` and reads the charset. */
  lemma AlphanumericCharOfCode(c: char, v: int)
    requires 0 <= v < |AlphanumericCharset|
    ensures AlphanumericChar(v) == AlphanumericCharset[v]
    ensures AlphanumericCode(c) == v ==> AlphanumericChar(v) == c
  {
    CharsetAt(v);
    CodeInjective(AlphanumericChar(v), AlphanumericCharset[v]);
    if AlphanumericCode(c) == v {
      CodeInjective(c, AlphanumericChar(v));
    }
  }

  /** The code is the position of the character in the charset, and -1 is
      returned exactly for the characters outside it. */
  lemma AlphanumericCodeExact(c: char)
    ensures AlphanumericCode(c) != -1 ==> AlphanumericCharset[AlphanumericCode(c)] == c
    ensures AlphanumericCode(c) == -1 <==> c !in AlphanumericCharset
  {
    var r := AlphanumericCode(c);
    if r != -1 {
      CharsetAt(r);
      CodeInjective(c, AlphanumericCharset[r]);
    }
    if c in AlphanumericCharset {
      var i :| 0 <= i < |AlphanumericCharset| && AlphanumericCharset[i] == c;
      CharsetAt(i);
    }
  }

  predicate IsDigit(c: char)
  {
    '0' <= c <= '9'
  }

  /** A digit's alphanumeric value is the digit. */
  lemma DigitCode(c: char)
    requires IsDigit(c)
    ensures AlphanumericCode(c) == c as int - '0' as int
  {
  }

  ghost predicate AllDigits(s: string)
  {
    forall i :: 0 <= i < |s| ==> IsDigit(s[i])
  }

  ghost predicate AllAlphanumeric(s: string)
  {
    forall i :: 0 <= i < |s| ==> AlphanumericCode(s[i]) != -1
  }

  lemma RestOfString(s: string)
    requires |s| > 0
    ensures AllDigits(s) <==> IsDigit(s[0]) && AllDigits(s[1..])
    ensures AllAlphanumeric(s) <==> AlphanumericCode(s[0]) != -1 && AllAlphanumeric(s[1..])
  {
    assert forall i :: 1 <= i < |s| ==> s[i] == s[1..][i - 1];
  }

  lemma DigitsAreAlphanumeric(s: string)
    ensures AllDigits(s) ==> AllAlphanumeric(s)
  {
    forall i | 0 <= i < |s| && IsDigit(s[i])
      ensures AlphanumericCode(s[i]) != -1
    {
      DigitCode(s[i]);
    }
  }

  /** `charAt(i) - '0'`, whatever the character. */
  function DigitValue(c: char): int
  {
    c as int - '0' as int
  }

  function DigitChar(d: int): (c: char)
    requires 0 <= d < 10
    ensures IsDigit(c) && DigitValue(c) == d
  {
    ('0' as int + d) as char
  }
}
