/** The JavaScript primitives the grade queries are built from: spreadsheet
    cell values, `String(v)`, `String.prototype.trim`, `toLowerCase` and
    `String.prototype.includes`. */
module Js {

  /** A value that may be `undefined`, such as a request's query parameter. */
  datatype Option<+T> = None | Some(value: T)

  /** A cell as the spreadsheet reader hands it over; a missing cell is `undefined`.
      Numbers are integers here (see README). */
  datatype Cell = Absent | Text(text: string) | Number(value: int) | Boolean(flag: bool)

  /** JavaScript truthiness: the test behind `cell || fallback`. The falsy
      cells are exactly `undefined`, `''`, `0` and `false`. */
  predicate Truthy(c: Cell): (b: bool)
    ensures !b <==> c in {Absent, Text(""), Number(0), Boolean(false)}
  {
    match c
    case Absent => false
    case Text(s) => s != ""
    case Number(n) => n != 0
    case Boolean(b) => b
  }

  predicate IsDigit(c: char) {
    '0' <= c <= '9'
  }

  predicate AllDigits(s: string) {
    forall i :: 0 <= i < |s| ==> IsDigit(s[i])
  }

  function DigitChar(d: nat): (c: char)
    requires d < 10
    ensures IsDigit(c) && c as int - '0' as int == d
  {
    ('0' as int + d) as char
  }

  /** The decimal numeral of `n`, as `String(n)` prints a non-negative integer. */
  function NatToString(n: nat): (r: string)
    ensures |r| > 0 && AllDigits(r)
    ensures r[0] == '0' ==> r == "0"
    decreases n
  {
    if n < 10 then [DigitChar(n)] else NatToString(n / 10) + [DigitChar(n % 10)]
  }

  /** The value a decimal numeral denotes. */
  function DecimalValue(s: string): nat
    requires AllDigits(s)
  {
    if |s| == 0 then 0 else 10 * DecimalValue(s[..|s| - 1]) + (s[|s| - 1] as int - '0' as int)
  }

  /** Printing a number and reading it back gives the number. */
  lemma {:induction false} DecimalRoundTrip(n: nat)
    ensures DecimalValue(NatToString(n)) == n
  {
    if n >= 10 {
      var r := NatToString(n);
      assert r[..|r| - 1] == NatToString(n / 10);
      DecimalRoundTrip(n / 10);
    }
  }

  /** `String(c)`: a text prints as itself, a missing cell as "undefined", a
      number as its decimal numeral and a boolean as "true" or "false". The
      only cell that prints as the empty string is the empty text. */
  function ToJsString(c: Cell): (r: string)
    ensures r == "" <==> c == Text("")
    ensures c == Absent ==> r == "undefined"
    ensures c.Text? ==> r == c.text
    ensures c.Number? && c.value >= 0 ==> r == NatToString(c.value)
    ensures c.Number? && c.value < 0 ==> r == "-" + NatToString(-c.value)
    ensures c.Boolean? ==> r == (if c.flag then "true" else "false")
    ensures !c.Text? ==> Trimmed(r)
  {
    match c
    case Absent => "undefined"
    case Text(s) => s
    case Number(n) =>
      if n < 0 then "-" + NatToString(-n)
      else NatToString(n)
    case Boolean(b) => if b then "true" else "false"
  }

  /** `String(n)` for an integer cell is its decimal numeral, after a "-" when
      the number is negative. */
  lemma NumberCellPrintsDecimal(n: int)
    ensures n >= 0 ==> AllDigits(ToJsString(Number(n))) && DecimalValue(ToJsString(Number(n))) == n
    ensures n < 0 ==> var r := ToJsString(Number(n));
                      r[0] == '-' && AllDigits(r[1..]) && DecimalValue(r[1..]) == -n
  {
    if n >= 0 {
      DecimalRoundTrip(n);
    } else {
      var r := ToJsString(Number(n));
      assert r[1..] == NatToString(-n);
      DecimalRoundTrip(-n);
    }
  }

  /** The characters `trim` removes: ECMAScript WhiteSpace (TAB, VT, FF, ZWNBSP and
      the Unicode space separators) and LineTerminator (LF, CR, LS, PS). */
  predicate IsSpace(c: char) {
    || c == '\t' || c == '\U{B}' || c == '\U{C}' || c == '\U{FEFF}'
    || c == ' ' || c == '\U{A0}' || c == '\U{1680}' || ('\U{2000}' <= c <= '\U{200A}')
    || c == '\U{202F}' || c == '\U{205F}' || c == '\U{3000}'
    || c == '\n' || c == '\r' || c == '\U{2028}' || c == '\U{2029}'
  }

  predicate AllSpace(s: string) {
    forall i :: 0 <= i < |s| ==> IsSpace(s[i])
  }

  /** Neither starts nor ends with a space: what `trim` leaves behind. */
  predicate Trimmed(s: string) {
    |s| == 0 || (!IsSpace(s[0]) && !IsSpace(s[|s| - 1]))
  }

  function TrimStart(s: string): (r: string)
    ensures |r| <= |s| && r == s[|s| - |r|..] && AllSpace(s[..|s| - |r|])
    ensures |r| == 0 || !IsSpace(r[0])
  {
    if |s| > 0 && IsSpace(s[0]) then TrimStart(s[1..]) else s
  }

  function TrimEnd(s: string): (r: string)
    ensures |r| <= |s| && r == s[..|r|] && AllSpace(s[|r|..])
    ensures |r| == 0 || !IsSpace(r[|r| - 1])
  {
    if |s| > 0 && IsSpace(s[|s| - 1]) then TrimEnd(s[..|s| - 1]) else s
  }

  /** `r` is `s` with the all-space prefix `s[..i]` and an all-space suffix cut off. */
  predicate CutAt(s: string, r: string, i: int) {
    0 <= i <= |s| - |r| && s[i..i + |r|] == r && AllSpace(s[..i]) && AllSpace(s[i + |r|..])
  }

  /** `s.trim()`: `s` with its leading and trailing spaces cut off. The two
      postconditions together determine the result: a non-empty result starts
      and ends with a non-space, so the cut is exactly the run of spaces at
      each end; an empty result means `s` was all spaces. */
  function Trim(s: string): (r: string)
    ensures Trimmed(r)
    ensures exists i :: CutAt(s, r, i)
  {
    var t := TrimStart(s);
    var r := TrimEnd(t);
    var i := |s| - |t|;
    assert s[i..i + |r|] == r;
    assert s[i + |r|..] == t[|r|..];
    assert CutAt(s, r, i);
    r
  }

  /** Trimming a trimmed string changes nothing. */
  lemma TrimmedIsFixed(s: string)
    requires Trimmed(s)
    ensures Trim(s) == s
  {
  }

  /** `trim` is idempotent. */
  lemma TrimIdempotent(s: string)
    ensures Trim(Trim(s)) == Trim(s)
  {
    TrimmedIsFixed(Trim(s));
  }

  /** A string of spaces only (the empty string included) trims to "". */
  lemma AllSpaceTrimsToEmpty(s: string)
    requires AllSpace(s)
    ensures Trim(s) == ""
  {
    var i :| CutAt(s, Trim(s), i);
  }

  /** `s.toLowerCase()`, character by character through the case mapping `lower`:
      the result has the length of `s` and lowers each of its characters in place. */
  function LowerCase(lower: char -> char, s: string): (r: string)
    ensures |r| == |s|
    ensures forall i :: 0 <= i < |s| ==> r[i] == lower(s[i])
  {
    seq(|s|, i requires 0 <= i < |s| => lower(s[i]))
  }

  /** `haystack.includes(needle)`: `needle` occurs in `haystack` as a contiguous
      run, so it is never longer than `haystack`. */
  predicate Includes(haystack: string, needle: string): (b: bool)
    ensures b ==> |needle| <= |haystack|
  {
    exists i :: 0 <= i <= |haystack| - |needle| && OccursAt(haystack, needle, i)
  }

  predicate OccursAt(haystack: string, needle: string, i: int)
    requires 0 <= i <= |haystack| - |needle|
  {
    haystack[i..i + |needle|] == needle
  }

  /** A run that occurs in `haystack` still occurs after both are lowered: a
      case-sensitive match is also a case-insensitive one. */
  lemma IncludesLowered(lower: char -> char, haystack: string, needle: string)
    requires Includes(haystack, needle)
    ensures Includes(LowerCase(lower, haystack), LowerCase(lower, needle))
  {
    var i :| 0 <= i <= |haystack| - |needle| && OccursAt(haystack, needle, i);
    var h := LowerCase(lower, haystack);
    var n := LowerCase(lower, needle);
    assert h[i..i + |n|] == n by {
      forall k | 0 <= k < |n|
        ensures h[i..i + |n|][k] == n[k]
      {
        assert haystack[i..i + |needle|][k] == needle[k];
      }
    }
    assert OccursAt(h, n, i);
  }

  /** Every string includes the empty string. */
  lemma IncludesEmpty(haystack: string)
    ensures Includes(haystack, "")
  {
    assert OccursAt(haystack, "", 0);
  }
}
