/**
 Shared vocabulary of the model: an Option type and the handful of Python
 string operations the bot relies on (`startswith`, `in`, `strip`, `lower`,
 `split`, `replace`). Character classes are ASCII: Python's Unicode-aware
 `strip`, `lower` and `isdigit` and the `re` classes `\s` and `\d` agree
 with these on ASCII text.
 */
module Common {

  datatype Option<+T> = None | Some(value: T) {
    function GetOr(default: T): T {
      match this
      case Some(v) => v
      case None => default
    }
  }

  predicate IsDigit(c: char) {
    '0' <= c <= '9'
  }

  /**
   Python's `str.isspace()` restricted to ASCII, which is also what `strip()`,
   the `re` class `\s` and `Decimal()` skip: the six C whitespace characters
   and the four information separators.
   */
  predicate IsSpace(c: char) {
    c == ' ' || c == '\t' || c == '\n' || c == '\r' || c == '\U{000B}' || c == '\U{000C}' || IsSeparator(c)
  }

  /** The information separators U+001C to U+001F: whitespace to `str.isspace()`, but not to `int()`. */
  predicate IsSeparator(c: char) {
    '\U{001C}' <= c <= '\U{001F}'
  }

  predicate AllDigits(s: string) {
    forall i :: 0 <= i < |s| ==> IsDigit(s[i])
  }

  /** `s.isdigit()`: non-empty and every character a digit. */
  predicate IsDigitString(s: string) {
    |s| > 0 && AllDigits(s)
  }

  predicate StartsWith(s: string, prefix: string) {
    |prefix| <= |s| && s[..|prefix|] == prefix
  }

  /** Python's `sub in s`. */
  predicate Contains(s: string, sub: string)
    decreases |s|
  {
    StartsWith(s, sub) || (|s| > 0 && Contains(s[1..], sub))
  }

  lemma {:induction false} ContainsAt(s: string, sub: string, i: nat)
    requires i + |sub| <= |s| && s[i..i + |sub|] == sub
    ensures Contains(s, sub)
    decreases i
  {
    if i > 0 {
      assert s[1..][i - 1..i - 1 + |sub|] == s[i..i + |sub|];
      ContainsAt(s[1..], sub, i - 1);
    }
  }

  function LowerChar(c: char): char {
    if 'A' <= c <= 'Z' then (c as int + 32) as char else c
  }

  function UpperChar(c: char): char {
    if 'a' <= c <= 'z' then (c as int - 32) as char else c
  }

  function Lower(s: string): (r: string)
    ensures |r| == |s|
    ensures forall i :: 0 <= i < |s| ==> r[i] == LowerChar(s[i])
  {
    seq(|s|, i requires 0 <= i < |s| => LowerChar(s[i]))
  }

  function Upper(s: string): (r: string)
    ensures |r| == |s|
    ensures forall i :: 0 <= i < |s| ==> r[i] == UpperChar(s[i])
  {
    seq(|s|, i requires 0 <= i < |s| => UpperChar(s[i]))
  }

  /** Drops leading whitespace (`lstrip()`). */
  function TrimStart(s: string): (r: string)
    ensures |r| <= |s| && r == s[|s| - |r|..]
    ensures |r| > 0 ==> !IsSpace(r[0])
    ensures forall i :: 0 <= i < |s| - |r| ==> IsSpace(s[i])
    decreases |s|
  {
    if |s| > 0 && IsSpace(s[0]) then TrimStart(s[1..]) else s
  }

  /** Drops trailing whitespace (`rstrip()`). */
  function TrimEnd(s: string): (r: string)
    ensures |r| <= |s| && r == s[..|r|]
    ensures |r| > 0 ==> !IsSpace(r[|r| - 1])
    ensures forall i :: |r| <= i < |s| ==> IsSpace(s[i])
    decreases |s|
  {
    if |s| > 0 && IsSpace(s[|s| - 1]) then TrimEnd(s[..|s| - 1]) else s
  }

  /** Python's `s.strip()`: neither end of the result is whitespace. */
  function Strip(s: string): (r: string)
    ensures |r| <= |s|
    ensures |r| > 0 ==> !IsSpace(r[0]) && !IsSpace(r[|r| - 1])
  {
    TrimEnd(TrimStart(s))
  }

  /** Stripping a string that already has no whitespace at either end leaves it as it is. */
  lemma StripStable(s: string)
    requires |s| > 0 ==> !IsSpace(s[0]) && !IsSpace(s[|s| - 1])
    ensures Strip(s) == s
  {
  }

  /** Python's `s.rstrip(c)` for a single character `c`. */
  function RStripChar(s: string, c: char): (r: string)
    ensures |r| <= |s| && r == s[..|r|]
    ensures |r| > 0 ==> r[|r| - 1] != c
    ensures forall i :: |r| <= i < |s| ==> s[i] == c
    decreases |s|
  {
    if |s| > 0 && s[|s| - 1] == c then RStripChar(s[..|s| - 1], c) else s
  }

  /** One step of `rstrip(c)`: a trailing `c` is dropped, any other last character ends the scan. */
  lemma RStripCharStep(s: string, c: char)
    ensures |s| > 0 && s[|s| - 1] == c ==> RStripChar(s, c) == RStripChar(s[..|s| - 1], c)
    ensures !(|s| > 0 && s[|s| - 1] == c) ==> RStripChar(s, c) == s
  {
  }

  /** Index of the first occurrence of `c`, or |s| when there is none. */
  function IndexOf(s: string, c: char): (k: nat)
    ensures k <= |s|
    ensures k < |s| ==> s[k] == c
    ensures forall i :: 0 <= i < k ==> s[i] != c
    decreases |s|
  {
    if |s| == 0 then 0
    else if s[0] == c then 0
    else 1 + IndexOf(s[1..], c)
  }

  /** Python's `s.split(sep)` for a one-character separator: the pieces, in order. */
  function Split(s: string, sep: char): (parts: seq<string>)
    ensures |parts| >= 1
    ensures forall k :: 0 <= k < |parts| ==> sep !in parts[k]
    decreases |s|
  {
    var k := IndexOf(s, sep);
    if k == |s| then [s] else [s[..k]] + Split(s[k + 1..], sep)
  }

  /** Joining the pieces of a split with the separator gives the original string back. */
  lemma {:induction false} SplitJoin(s: string, sep: char)
    ensures Join(Split(s, sep), sep) == s
    decreases |s|
  {
    var k := IndexOf(s, sep);
    if k < |s| {
      var rest := Split(s[k + 1..], sep);
      assert Split(s, sep) == [s[..k]] + rest;
      assert s == s[..k] + [sep] + s[k + 1..];
      SplitJoin(s[k + 1..], sep);
      hide Split, IndexOf;
      assert ([s[..k]] + rest)[1..] == rest;
    }
  }

  function Join(parts: seq<string>, sep: char): string
    decreases |parts|
  {
    if |parts| == 0 then ""
    else if |parts| == 1 then parts[0]
    else parts[0] + [sep] + Join(parts[1..], sep)
  }

  /**
   Python's `s.replace(pattern, replacement)` for a non-empty `pattern`: scans left to right
   and replaces every non-overlapping occurrence.
   */
  function ReplaceAll(s: string, pattern: string, replacement: string): (r: string)
    requires |pattern| > 0
    ensures !Contains(s, pattern) ==> r == s
    decreases |s|
  {
    if |s| == 0 then s
    else if StartsWith(s, pattern) then replacement + ReplaceAll(s[|pattern|..], pattern, replacement)
    else [s[0]] + ReplaceAll(s[1..], pattern, replacement)
  }

  /** Keeps the characters satisfying `keep`, in order (`re.sub` with a negated class). */
  function Filter(s: string, keep: char -> bool): (r: string)
    ensures |r| <= |s|
    ensures forall i :: 0 <= i < |r| ==> keep(r[i])
    decreases |s|
  {
    if |s| == 0 then ""
    else if keep(s[0]) then [s[0]] + Filter(s[1..], keep)
    else Filter(s[1..], keep)
  }

  /** `re.sub(r"\D", "", s)`: the digits of `s`, in order. */
  function DigitsOf(s: string): (r: string)
    ensures AllDigits(r)
    ensures AllDigits(s) ==> r == s
    decreases |s|
  {
    if |s| == 0 then ""
    else if IsDigit(s[0]) then [s[0]] + DigitsOf(s[1..])
    else DigitsOf(s[1..])
  }

  /** Filtering is a homomorphism over concatenation. */
  lemma {:induction false} DigitsOfAppend(a: string, b: string)
    ensures DigitsOf(a + b) == DigitsOf(a) + DigitsOf(b)
    decreases |a|
  {
    if |a| == 0 {
      assert a + b == b;
    } else {
      assert (a + b)[0] == a[0];
      assert (a + b)[1..] == a[1..] + b;
      DigitsOfAppend(a[1..], b);
    }
  }

  function Nth<T>(s: seq<T>, i: nat, default: T): T {
    if i < |s| then s[i] else default
  }

  /** Natural-number decimal rendering without leading zeros (`str(n)`). */
  function NatToString(n: nat): (r: string)
    ensures |r| > 0 && AllDigits(r)
    ensures |r| > 1 ==> r[0] != '0'
    decreases n
  {
    if n < 10 then [DigitChar(n)] else NatToString(n / 10) + [DigitChar(n % 10)]
  }

  function DigitChar(d: nat): (c: char)
    requires d < 10
    ensures IsDigit(c)
  {
    ('0' as int + d) as char
  }

  function DigitValue(c: char): (d: nat)
    requires IsDigit(c)
    ensures d < 10
  {
    c as int - '0' as int
  }

  /** Decimal value of a string of digits (the empty string is 0). */
  function DigitsValue(s: string): nat
    requires AllDigits(s)
    decreases |s|
  {
    if |s| == 0 then 0 else DigitsValue(s[..|s| - 1]) * 10 + DigitValue(s[|s| - 1])
  }

  lemma {:induction false} NatToStringValue(n: nat)
    ensures DigitsValue(NatToString(n)) == n
    decreases n
  {
    var r := NatToString(n);
    if n >= 10 {
      NatToStringValue(n / 10);
      assert r[..|r| - 1] == NatToString(n / 10);
    }
  }

  /** `str(n)` for any integer. */
  function IntToString(n: int): (r: string)
    ensures |r| > 0
  {
    if n < 0 then "-" + NatToString(-n) else NatToString(n)
  }

  /**
   Python's `int(text)` for ASCII text: whitespace around, an optional sign,
   then at least one decimal digit; anything else raises, which is None here.
   `int()` skips only the six C whitespace characters, so an information
   separator anywhere makes it raise.
   */
  function ParseInt(s: string): (r: Option<int>)
    ensures r.Some? ==> |Strip(s)| > 0
  {
    var t := Strip(s);
    if !NoSeparator(s) then None
    else if |t| > 0 && (t[0] == '-' || t[0] == '+') then
      if IsDigitString(t[1..]) then Some(if t[0] == '-' then -(DigitsValue(t[1..]) as int) else DigitsValue(t[1..])) else None
    else if IsDigitString(t) then Some(DigitsValue(t))
    else None
  }

  predicate NoSeparator(s: string) {
    forall i :: 0 <= i < |s| ==> !IsSeparator(s[i])
  }

  /** `strip()` removes one trailing whitespace character from an otherwise stripped text. */
  lemma StripTrailingSpace(t: string, c: char)
    requires |t| > 0 && !IsSpace(t[0]) && !IsSpace(t[|t| - 1]) && IsSpace(c)
    ensures Strip(t + [c]) == t
  {
    var s := t + [c];
    assert s[0] == t[0] && s[|s| - 1] == c && s[..|s| - 1] == t;
    assert TrimStart(s) == s;
    assert TrimEnd(s) == TrimEnd(t);
    StripStable(t);
  }

  /** `int()` raises on a digit string followed by an information separator, which `strip()` would remove. */
  lemma ParseIntSeparator(d: string, c: char)
    requires IsDigitString(d) && IsSeparator(c)
    ensures Strip(d + [c]) == d && ParseInt(d + [c]).None?
  {
    assert IsDigit(d[0]) && IsDigit(d[|d| - 1]);
    StripTrailingSpace(d, c);
    assert (d + [c])[|d|] == c;
  }

  /** A digit string parses to its value. */
  lemma ParseIntDigits(d: string)
    requires IsDigitString(d)
    ensures ParseInt(d) == Some(DigitsValue(d) as int)
  {
    assert IsDigit(d[0]) && IsDigit(d[|d| - 1]) && NoSeparator(d);
    StripStable(d);
    hide Strip, DigitsValue, IsSpace, AllDigits, IsDigitString;
  }

  /** A minus sign before a digit string parses to the negated value. */
  lemma ParseIntNegative(d: string)
    requires IsDigitString(d)
    ensures ParseInt("-" + d) == Some(-(DigitsValue(d) as int))
  {
    NegativeLiteral(d);
    hide Strip, DigitsValue, IsSpace, AllDigits, IsDigit, IsDigitString;
  }

  /** `-` followed by a digit string is already stripped, and the digits follow the sign. */
  lemma NegativeLiteral(d: string)
    requires IsDigitString(d)
    ensures var t := "-" + d; Strip(t) == t && t[0] == '-' && t[1..] == d && NoSeparator(t)
  {
    var t := "-" + d;
    assert forall i :: 1 <= i < |t| ==> t[i] == d[i - 1];
    assert t[|t| - 1] == d[|d| - 1];
    StripStable(t);
  }

  /** `int(str(n)) == n`. */
  lemma ParseIntRoundTrip(n: int)
    ensures ParseInt(IntToString(n)) == Some(n)
  {
    hide ParseInt, NatToString, DigitsValue;
    if n < 0 {
      var m: nat := -n;
      var d := NatToString(m);
      assert IntToString(n) == "-" + d;
      NatToStringValue(m);
      ParseIntNegative(d);
    } else {
      var d := NatToString(n);
      assert IntToString(n) == d;
      NatToStringValue(n);
      ParseIntDigits(d);
    }
  }
}
