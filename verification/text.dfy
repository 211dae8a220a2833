/**
  The small part of Python's string behaviour the core relies on: `strip()`,
  `split(sep)`, `sep.join(...)`, `upper()` / `lower()`, `str(int)` and `int(str)`.
 */
module Text {
  import opened Wrappers

  /** Python's `str.isspace()`: exactly the code points `str.strip()` removes. */
  predicate IsSpace(c: char) {
    var n := c as int;
    (9 <= n <= 13) || (28 <= n <= 32) || n == 0x85 || n == 0xA0 || n == 0x1680
    || (0x2000 <= n <= 0x200A) || n == 0x2028 || n == 0x2029 || n == 0x202F
    || n == 0x205F || n == 0x3000
  }

  /** Drops leading white space. */
  function StripStart(s: string): (r: string)
    ensures |r| <= |s| && r == s[|s| - |r|..]
    ensures forall i :: 0 <= i < |s| - |r| ==> IsSpace(s[i])
    ensures |r| > 0 ==> !IsSpace(r[0])
  {
    if |s| > 0 && IsSpace(s[0]) then StripStart(s[1..]) else s
  }

  /** Drops trailing white space. */
  function StripEnd(s: string): (r: string)
    ensures |r| <= |s| && r == s[..|r|]
    ensures forall i :: |r| <= i < |s| ==> IsSpace(s[i])
    ensures |r| > 0 ==> !IsSpace(r[|r| - 1])
  {
    if |s| > 0 && IsSpace(s[|s| - 1]) then StripEnd(s[..|s| - 1]) else s
  }

  /** How many leading white-space characters `Strip` removes. */
  function StripOffset(s: string): nat {
    |s| - |StripStart(s)|
  }

  /** Python's `str.strip()`: the longest infix with no white space at either end. */
  function Strip(s: string): (r: string)
    ensures |r| > 0 ==> !IsSpace(r[0]) && !IsSpace(r[|r| - 1])
    ensures StripOffset(s) + |r| <= |s| && r == s[StripOffset(s)..StripOffset(s) + |r|]
    ensures forall k :: 0 <= k < StripOffset(s) ==> IsSpace(s[k])
    ensures forall k :: StripOffset(s) + |r| <= k < |s| ==> IsSpace(s[k])
  {
    var t := StripStart(s);
    var r := StripEnd(t);
    assert r == s[|s| - |t|..|s| - |t| + |r|];
    r
  }

  /** A string with no white space at either end is its own strip. */
  lemma StripUnchanged(s: string)
    requires |s| > 0 ==> !IsSpace(s[0]) && !IsSpace(s[|s| - 1])
    ensures Strip(s) == s
  {
  }

  /** Stripping twice is stripping once. */
  lemma StripIdempotent(s: string)
    ensures Strip(Strip(s)) == Strip(s)
  {
    StripUnchanged(Strip(s));
  }

  /** Index of the first occurrence of `c`. */
  function IndexOf(s: string, c: char): (k: nat)
    requires c in s
    ensures k < |s| && s[k] == c && c !in s[..k]
  {
    if s[0] == c then 0 else 1 + IndexOf(s[1..], c)
  }

  /** Python's `s.split(sep)` for a one-character separator; `"".split(";") == [""]`. */
  function Split(s: string, sep: char): (parts: seq<string>)
    ensures |parts| >= 1
    ensures forall i :: 0 <= i < |parts| ==> sep !in parts[i]
    decreases |s|
  {
    if sep !in s then [s]
    else
      var k := IndexOf(s, sep);
      [s[..k]] + Split(s[k + 1..], sep)
  }

  /** Python's `sep.join(parts)`. */
  function Join(parts: seq<string>, sep: string): string
  {
    if |parts| == 0 then ""
    else if |parts| == 1 then parts[0]
    else parts[0] + sep + Join(parts[1..], sep)
  }

  /** Joining the pieces of a split with the separator gives the string back. */
  lemma {:induction false} JoinSplit(s: string, sep: char)
    ensures Join(Split(s, sep), [sep]) == s
    decreases |s|
  {
    if sep in s {
      var k := IndexOf(s, sep);
      var rest := Split(s[k + 1..], sep);
      JoinSplit(s[k + 1..], sep);
      assert Split(s, sep) == [s[..k]] + rest;
      assert s == s[..k] + [sep] + s[k + 1..];
    }
  }

  /** Splitting a join of separator-free pieces gives the pieces back. */
  /** In `a + [c] + b` with no `c` in `a`, the first `c` is the one after `a`. */
  lemma FirstAfter(a: string, c: char, b: string)
    requires c !in a
    ensures c in a + [c] + b
    ensures IndexOf(a + [c] + b, c) == |a|
    ensures (a + [c] + b)[..|a|] == a && (a + [c] + b)[|a| + 1..] == b
  {
    var s := a + [c] + b;
    assert s[|a|] == c;
  }

  lemma {:induction false} SplitJoin(parts: seq<string>, sep: char)
    requires |parts| >= 1
    requires forall i :: 0 <= i < |parts| ==> sep !in parts[i]
    ensures Split(Join(parts, [sep]), sep) == parts
  {
    if |parts| > 1 {
      var tail := Join(parts[1..], [sep]);
      var s := parts[0] + [sep] + tail;
      assert Join(parts, [sep]) == s;
      FirstAfter(parts[0], sep, tail);
      assert Split(s, sep) == [parts[0]] + Split(tail, sep);
      assert forall i :: 0 <= i < |parts[1..]| ==> parts[1..][i] == parts[i + 1];
      SplitJoin(parts[1..], sep);
      assert parts == [parts[0]] + parts[1..];
    }
  }

  function UpperChar(c: char): char {
    if 'a' <= c <= 'z' then (c as int - 32) as char else c
  }

  function LowerChar(c: char): char {
    if 'A' <= c <= 'Z' then (c as int + 32) as char else c
  }

  /** Python's `str.upper()` on the ASCII letters. */
  function Upper(s: string): string {
    seq(|s|, i requires 0 <= i < |s| => UpperChar(s[i]))
  }

  /** Python's `str.lower()` on the ASCII letters. */
  function Lower(s: string): string {
    seq(|s|, i requires 0 <= i < |s| => LowerChar(s[i]))
  }

  predicate IsDigit(c: char) {
    '0' <= c <= '9'
  }

  predicate AllDigits(s: string) {
    forall i :: 0 <= i < |s| ==> IsDigit(s[i])
  }

  function DigitValue(c: char): nat
    requires IsDigit(c)
  {
    c as int - '0' as int
  }

  function DigitChar(d: nat): (c: char)
    requires d < 10
    ensures IsDigit(c) && DigitValue(c) == d
  {
    ('0' as int + d) as char
  }

  /** The number a string of decimal digits denotes (leading zeros allowed). */
  function DigitsValue(s: string): nat
    requires AllDigits(s)
    decreases |s|
  {
    if |s| == 0 then 0 else DigitsValue(s[..|s| - 1]) * 10 + DigitValue(s[|s| - 1])
  }

  /** Python's `str(n)` for a natural number: shortest decimal, read back as `n`. */
  function NatToString(n: nat): (s: string)
    ensures 1 <= |s| && AllDigits(s)
    ensures |s| > 1 ==> s[0] != '0'
    ensures DigitsValue(s) == n
    ensures n < 10 ==> |s| == 1
    ensures n < 1000 ==> |s| <= 3
    decreases n
  {
    if n < 10 then [DigitChar(n)]
    else
      var p := NatToString(n / 10);
      var s := p + [DigitChar(n % 10)];
      assert s[..|s| - 1] == p;
      s
  }

  /** Digits that do not start with `0` denote a positive number. */
  lemma {:induction false} LeadingDigitPositive(p: string)
    requires 1 <= |p| && AllDigits(p) && p[0] != '0'
    ensures DigitsValue(p) > 0
    decreases |p|
  {
    if |p| > 1 {
      LeadingDigitPositive(p[..|p| - 1]);
    }
  }

  /** Digits without a leading zero are the text `str` prints for their value. */
  lemma {:induction false} CanonicalDigits(p: string)
    requires 1 <= |p| && AllDigits(p)
    requires |p| > 1 ==> p[0] != '0'
    ensures NatToString(DigitsValue(p)) == p
    decreases |p|
  {
    if |p| > 1 {
      var q := p[..|p| - 1];
      var d := DigitValue(p[|p| - 1]);
      CanonicalDigits(q);
      LeadingDigitPositive(q);
      var v := DigitsValue(p);
      assert v == DigitsValue(q) * 10 + d;
      assert v / 10 == DigitsValue(q) && v % 10 == d;
      assert DigitChar(d) == p[|p| - 1];
      assert p == q + [p[|p| - 1]];
    }
  }

  /** Python's `str(i)` for an integer. */
  function IntToString(i: int): string {
    if i < 0 then "-" + NatToString(-i) else NatToString(i)
  }

  /** Digits with single underscores between them, as Python's `int()` admits. */
  predicate IsNumeral(b: string) {
    && |b| > 0 && IsDigit(b[0]) && IsDigit(b[|b| - 1])
    && (forall i :: 0 <= i < |b| ==> IsDigit(b[i]) || b[i] == '_')
    && (forall i, j :: 0 <= i < |b| && 0 <= j < |b| && j == i + 1 ==> b[i] != '_' || b[j] != '_')
  }

  function DropUnderscores(b: string): (d: string)
    requires forall i :: 0 <= i < |b| ==> IsDigit(b[i]) || b[i] == '_'
    ensures AllDigits(d)
    ensures AllDigits(b) ==> d == b
  {
    if |b| == 0 then ""
    else if b[0] == '_' then DropUnderscores(b[1..])
    else [b[0]] + DropUnderscores(b[1..])
  }

  /** Python's `int(s)` in base 10: surrounding white space, an optional sign, ASCII digits. */
  function ParseInt(s: string): Option<int> {
    ParseSigned(Strip(s))
  }

  /** `int(s)` once the white space is gone: an optional sign, then a numeral. */
  function ParseSigned(t: string): Option<int> {
    if |t| > 0 && t[0] == '-' then
      match ParseNumeral(t[1..])
      case Some(v) => Some(0 - v)
      case None => None
    else if |t| > 0 && t[0] == '+' then ParseNumeral(t[1..])
    else ParseNumeral(t)
  }

  /** The value of an unsigned numeral. */
  function ParseNumeral(b: string): Option<int> {
    if IsNumeral(b) then Some(DigitsValue(DropUnderscores(b))) else None
  }

  /** The decimal text of a natural number is a numeral without underscores. */
  lemma NatNumeral(n: nat)
    ensures IsNumeral(NatToString(n)) && DropUnderscores(NatToString(n)) == NatToString(n)
  {
  }

  /** A numeral with no sign and no surrounding space reads back as its digits' value. */
  lemma ParseDigits(t: string)
    requires IsNumeral(t) && AllDigits(t)
    ensures ParseInt(t) == Some(DigitsValue(t))
  {
    StripUnchanged(t);
    assert ParseSigned(t) == Some(DigitsValue(t));
  }

  /** The same behind a minus sign. */
  lemma ParseNegated(t: string)
    requires IsNumeral(t) && AllDigits(t)
    ensures var v: int := DigitsValue(t); ParseInt("-" + t) == Some(-v)
  {
    StripSigned(t);
    SignedNegated(t);
  }

  /** A minus sign before a numeral is no white space. */
  lemma StripSigned(t: string)
    requires IsNumeral(t)
    ensures Strip("-" + t) == "-" + t
  {
    var u := "-" + t;
    assert u[|u| - 1] == t[|t| - 1];
    StripUnchanged(u);
  }

  /** A minus sign negates the numeral behind it. */
  lemma SignedNegated(t: string)
    requires IsNumeral(t) && AllDigits(t)
    ensures var v: int := DigitsValue(t); ParseSigned("-" + t) == Some(-v)
  {
    DropSign(t);
    NegatedValue("-" + t, t);
  }

  /** The same, for a text whose tail is already known to be the numeral. */
  lemma NegatedValue(u: string, t: string)
    requires |u| > 0 && u[0] == '-' && u[1..] == t && IsNumeral(t) && AllDigits(t)
    ensures ParseSigned(u) == Some(0 - DigitsValue(t))
  {
    SignedNegative(u, t);
    assert ParseNumeral(t) == Some(DigitsValue(t));
  }

  /** Dropping the sign character gives back the numeral. */
  lemma DropSign(t: string)
    ensures ("-" + t)[1..] == t
  {
  }

  /** A text starting with a minus sign reads as the negated numeral after it. */
  lemma SignedNegative(u: string, t: string)
    requires |u| > 0 && u[0] == '-' && u[1..] == t
    ensures ParseSigned(u) == match ParseNumeral(t) case Some(v) => Some(0 - v) case None => None
  {
  }

  /** `int(str(i)) == i`. */
  lemma IntRoundTrip(i: int)
    ensures ParseInt(IntToString(i)) == Some(i)
  {
    if i < 0 {
      NatNumeral(-i);
      ParseNegated(NatToString(-i));
    } else {
      NatNumeral(i);
      ParseDigits(NatToString(i));
    }
  }
}
