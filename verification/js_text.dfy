/** The JavaScript string and number built-ins that the UI code leans on, written out as
    small specified functions over `string` (a sequence of characters):
    `s.replace(c, d)` with a one-character pattern, `String(n)` for an integer,
    `parseInt(s, 10)`, `parseFloat(s)`, `s.trim()` and `parts.join(sep)`.
    The parsers return `None` where JavaScript returns `NaN`. */
module JsText {
  import opened Wrappers

  /** `x || d` on a parsed number: `NaN` and `0` both give the default. */
  function OrElse(r: Option<real>, d: real): (v: real)
    ensures r.None? ==> v == d
    ensures r.Some? && r.value != 0.0 ==> v == r.value
    ensures r == Some(0.0) ==> v == d
  {
    if r.Some? && r.value != 0.0 then r.value else d
  }

  /** The ASCII digits: what `\d` matches in a JavaScript regular expression. */
  predicate IsDigit(c: char) {
    '0' <= c <= '9'
  }

  predicate AllDigits(s: string) {
    forall i :: 0 <= i < |s| ==> IsDigit(s[i])
  }

  /** The characters `trim` and the number parsers skip: the ECMAScript WhiteSpace and
      LineTerminator code points. */
  predicate IsWhitespace(c: char) {
    || c == ' ' || c == '\t' || c == '\n' || c == '\r'
    || c == '\U{000B}' || c == '\U{000C}' || c == '\U{00A0}' || c == '\U{1680}'
    || ('\U{2000}' <= c <= '\U{200A}')
    || c == '\U{2028}' || c == '\U{2029}' || c == '\U{202F}' || c == '\U{205F}'
    || c == '\U{3000}' || c == '\U{FEFF}'
  }

  // ---------------------------------------------------------------------------
  // Searching and replacing one character

  /** Position of the first `c` in `s`, or `|s|` when `s` has none. */
  function FirstIndex(s: string, c: char): (k: nat)
    ensures k <= |s|
    ensures c !in s[..k]
    ensures k < |s| ==> s[k] == c
    ensures k == |s| <==> c !in s
  {
    if s == [] then 0
    else if s[0] == c then 0
    else
      var k' := FirstIndex(s[1..], c);
      assert s[..1 + k'] == [s[0]] + s[1..][..k'];
      1 + k'
  }

  /** `s.replace(pat, rep)` with a one-character string pattern: JavaScript replaces the
      first occurrence only. */
  function ReplaceFirst(s: string, pat: char, rep: char): (r: string)
    ensures var k := FirstIndex(s, pat); r == if k < |s| then s[k := rep] else s
  {
    if s == [] then []
    else if s[0] == pat then [rep] + s[1..]
    else [s[0]] + ReplaceFirst(s[1..], pat, rep)
  }

  /** The first occurrence is the only position with `c` and no `c` before it. */
  lemma FirstIndexUnique(s: string, c: char, k: nat)
    requires k < |s| && s[k] == c && c !in s[..k]
    ensures FirstIndex(s, c) == k
  {
  }

  /** Swapping one separator for another and back restores the text, as long as the
      text did not already hold the second separator. */
  lemma ReplaceFirstRoundTrip(s: string, a: char, b: char)
    requires b !in s
    ensures ReplaceFirst(ReplaceFirst(s, a, b), b, a) == s
  {
    var k := FirstIndex(s, a);
    if k < |s| {
      var t := s[k := b];
      assert t[..k] == s[..k];
      FirstIndexUnique(t, b, k);
      assert t[k := a] == s;
    }
  }

  // ---------------------------------------------------------------------------
  // Decimal digits and String(n)

  function DigitValue(c: char): (d: nat)
    requires IsDigit(c)
    ensures d < 10
  {
    c as int - '0' as int
  }

  function DigitChar(d: nat): (c: char)
    requires d < 10
    ensures IsDigit(c) && DigitValue(c) == d
  {
    ('0' as int + d) as char
  }

  /** Value of a string of decimal digits, most significant first. */
  function DigitsValue(s: string): nat
    requires AllDigits(s)
  {
    if s == [] then 0 else 10 * DigitsValue(s[..|s| - 1]) + DigitValue(s[|s| - 1])
  }

  function Pow10(n: nat): (p: nat)
    ensures p >= 1
  {
    if n == 0 then 1 else 10 * Pow10(n - 1)
  }

  /** `String(n)` for a natural number: its shortest decimal digits. */
  function NatToString(n: nat): (s: string)
    ensures 1 <= |s| && AllDigits(s)
    ensures |s| > 1 ==> s[0] != '0'
    ensures DigitsValue(s) == n
  {
    if n < 10 then [DigitChar(n)]
    else
      var s := NatToString(n / 10) + [DigitChar(n % 10)];
      assert s[..|s| - 1] == NatToString(n / 10);
      s
  }

  /** `String(i)` for an integer: a minus sign before the digits of a negative number. */
  function IntToString(i: int): (s: string)
    ensures |s| >= 1
    ensures i >= 0 ==> AllDigits(s)
    ensures i < 0 ==> s[0] == '-' && AllDigits(s[1..])
  {
    if i < 0 then "-" + NatToString(-i) else NatToString(i)
  }

  // ---------------------------------------------------------------------------
  // Prefix scanning shared by parseInt, parseFloat and trim

  /** Number of leading decimal digits of `s`. */
  function LeadingDigits(s: string): (k: nat)
    ensures k <= |s|
    ensures AllDigits(s[..k])
    ensures k < |s| ==> !IsDigit(s[k])
  {
    if s != [] && IsDigit(s[0]) then
      var k' := LeadingDigits(s[1..]);
      assert s[..1 + k'] == [s[0]] + s[1..][..k'];
      1 + k'
    else 0
  }

  /** Number of leading whitespace characters of `s`. */
  function LeadingWhitespace(s: string): (k: nat)
    ensures k <= |s|
    ensures forall i :: 0 <= i < k ==> IsWhitespace(s[i])
    ensures k < |s| ==> !IsWhitespace(s[k])
  {
    if s != [] && IsWhitespace(s[0]) then 1 + LeadingWhitespace(s[1..]) else 0
  }

  /** Number of trailing whitespace characters of `s`. */
  function TrailingWhitespace(s: string): (k: nat)
    ensures k <= |s|
    ensures forall i :: |s| - k <= i < |s| ==> IsWhitespace(s[i])
    ensures k < |s| ==> !IsWhitespace(s[|s| - k - 1])
  {
    if s != [] && IsWhitespace(s[|s| - 1]) then 1 + TrailingWhitespace(s[..|s| - 1]) else 0
  }

  /** `s.trim()`: the text between the leading and the trailing run of whitespace. */
  function Trim(s: string): (r: string)
    ensures |r| <= |s|
    ensures LeadingWhitespace(s) + |r| <= |s|
    ensures r != [] ==> !IsWhitespace(r[0]) && !IsWhitespace(r[|r| - 1])
    ensures r == [] <==> forall i :: 0 <= i < |s| ==> IsWhitespace(s[i])
    ensures r == s[LeadingWhitespace(s)..LeadingWhitespace(s) + |r|]
    ensures forall i :: LeadingWhitespace(s) + |r| <= i < |s| ==> IsWhitespace(s[i])
  {
    var a := LeadingWhitespace(s);
    var rest := s[a..];
    var r := rest[..|rest| - TrailingWhitespace(rest)];
    TrimBounds(s, a, rest, r);
    r
  }

  lemma TrimBounds(s: string, a: nat, rest: string, r: string)
    requires a == LeadingWhitespace(s) && rest == s[a..]
    requires r == rest[..|rest| - TrailingWhitespace(rest)]
    ensures a + |r| <= |s|
    ensures r == s[a..a + |r|]
    ensures forall i :: a + |r| <= i < |s| ==> IsWhitespace(s[i])
    ensures r == [] <==> forall i :: 0 <= i < |s| ==> IsWhitespace(s[i])
    ensures r != [] ==> !IsWhitespace(r[0]) && !IsWhitespace(r[|r| - 1])
  {
    TrimTail(s, a, rest, r);
    TrimEmpty(s, a, rest, r);
    TrimEnds(s, a, rest, r);
  }

  lemma TrimTail(s: string, a: nat, rest: string, r: string)
    requires a <= |s| && rest == s[a..]
    requires r == rest[..|rest| - TrailingWhitespace(rest)]
    ensures forall i :: a + |r| <= i < |s| ==> IsWhitespace(s[i])
  {
    forall i | a + |r| <= i < |s| ensures IsWhitespace(s[i]) {
      assert s[i] == rest[i - a];
    }
  }

  lemma TrimEnds(s: string, a: nat, rest: string, r: string)
    requires a == LeadingWhitespace(s) && rest == s[a..]
    requires r == rest[..|rest| - TrailingWhitespace(rest)]
    ensures r != [] ==> !IsWhitespace(r[0]) && !IsWhitespace(r[|r| - 1])
  {
    if r != [] {
      var b := TrailingWhitespace(rest);
      assert a < |s|;
      assert rest[0] == s[a];
      assert r[0] == rest[0];
      assert r[|r| - 1] == rest[|rest| - b - 1];
    }
  }

  lemma TrimEmpty(s: string, a: nat, rest: string, r: string)
    requires a == LeadingWhitespace(s) && rest == s[a..]
    requires r == rest[..|rest| - TrailingWhitespace(rest)]
    ensures r == [] <==> forall i :: 0 <= i < |s| ==> IsWhitespace(s[i])
  {
    if a < |s| {
      assert !IsWhitespace(rest[0]);
      assert TrailingWhitespace(rest) < |rest|;
    }
  }

  // ---------------------------------------------------------------------------
  // parseInt and parseFloat

  /** What the number parsers read after skipping leading whitespace: whether a `-`
      sign was present, and the text after the sign. */
  function SignAndBody(s: string): (r: (bool, string))
    ensures |r.1| <= |s|
  {
    var t := s[LeadingWhitespace(s)..];
    if t != [] && t[0] == '-' then (true, t[1..])
    else if t != [] && t[0] == '+' then (false, t[1..])
    else (false, t)
  }

  lemma SignAndBodyOfDigits(s: string)
    requires s != [] && IsDigit(s[0])
    ensures SignAndBody(s) == (false, s)
  {
    assert !IsWhitespace(s[0]);
  }

  /** `parseInt(s, 10)`: optional whitespace and sign, then the longest run of digits;
      `None` (NaN) when there is no digit. */
  function ParseInt(s: string): (r: Option<int>)
    ensures r.Some? <==> SignAndBody(s).1 != [] && IsDigit(SignAndBody(s).1[0])
    ensures s != [] && AllDigits(s) ==> r == Some(DigitsValue(s))
  {
    if s != [] && AllDigits(s) then
      SignAndBodyOfDigits(s);
      assert s[..LeadingDigits(s)] == s;
      var body := SignAndBody(s).1;
      Some(DigitsValue(body[..LeadingDigits(body)]))
    else
      var (neg, body) := SignAndBody(s);
      var k := LeadingDigits(body);
      if k == 0 then None
      else
        var v: int := DigitsValue(body[..k]);
        Some(if neg then -v else v)
  }

  /** Reading back what `String(n)` wrote gives `n` again. */
  lemma ParseIntOfIntToString(n: int)
    ensures ParseInt(IntToString(n)) == Some(n)
  {
    if n < 0 {
      var s := IntToString(n);
      var digits := NatToString(-n);
      assert !IsWhitespace(s[0]);
      assert SignAndBody(s) == (true, digits);
      assert digits[..LeadingDigits(digits)] == digits;
    }
  }

  /** Fractional part of a decimal number written with the digits `ds` after the point. */
  function DecimalFraction(ds: string): (f: real)
    requires AllDigits(ds)
    ensures 0.0 <= f < 1.0
  {
    DigitsValueBound(ds);
    QuotientBelowOne(DigitsValue(ds), Pow10(|ds|));
    DigitsValue(ds) as real / Pow10(|ds|) as real
  }

  lemma QuotientBelowOne(a: nat, b: nat)
    requires a < b
    ensures 0.0 <= a as real / b as real < 1.0
  {
    var q := a as real / b as real;
    assert q * b as real == a as real;
  }

  lemma {:induction false} DigitsValueBound(ds: string)
    requires AllDigits(ds)
    ensures DigitsValue(ds) < Pow10(|ds|)
  {
    if ds != [] {
      DigitsValueBound(ds[..|ds| - 1]);
    }
  }

  /** The digits after the `.` that follows the integer digits of `body`, if any. */
  function FractionDigits(body: string): (ds: string)
    ensures AllDigits(ds)
  {
    var k := LeadingDigits(body);
    if k < |body| && body[k] == '.' then
      var after := body[k + 1..];
      after[..LeadingDigits(after)]
    else []
  }

  /** `parseFloat(s)` for the decimal forms the application stores: optional whitespace
      and sign, digits, optionally a `.` and more digits, with at least one digit in all;
      `None` (NaN) otherwise. */
  function ParseFloat(s: string): (r: Option<real>)
    ensures r.Some? <==>
      var body := SignAndBody(s).1; LeadingDigits(body) > 0 || FractionDigits(body) != []
    ensures r.Some? && !SignAndBody(s).0 ==> r.value >= 0.0
  {
    var sign := SignAndBody(s);
    var body := sign.1;
    var k := LeadingDigits(body);
    var frac := FractionDigits(body);
    if k == 0 && frac == [] then None
    else
      var v := DigitsValue(body[..k]) as real + DecimalFraction(frac);
      Some(if sign.0 then -v else v)
  }

  /** `parseFloat` of a plain digit string is its value. */
  lemma ParseFloatOfDigits(s: string)
    requires s != [] && AllDigits(s)
    ensures ParseFloat(s).Some? && ParseFloat(s).value == DigitsValue(s) as real
  {
    SignAndBodyOfDigits(s);
    LeadingDigitsAll(s);
    assert s[..|s|] == s;
    assert FractionDigits(s) == [];
    assert DecimalFraction([]) == 0.0;
    ParseFloatUnsigned(s, |s|, []);
  }

  /** One digit: its value, and a tenth of it after the point. */
  lemma SingleDigit(c: char)
    requires IsDigit(c)
    ensures DigitsValue([c]) == DigitValue(c)
    ensures DecimalFraction([c]) == DigitValue(c) as real / 10.0
  {
    assert [c][..0] == [];
    assert Pow10(1) == 10;
  }

  /** `parseFloat` of plain decimal text "a.b": the integer part plus the fraction. */
  lemma ParseFloatOfDecimal(a: string, b: string)
    requires a != [] && AllDigits(a) && AllDigits(b)
    ensures var r := ParseFloat(a + "." + b); r.Some? && r.value == DigitsValue(a) as real + DecimalFraction(b)
  {
    var s := a + "." + b;
    assert s == a + ("." + b);
    assert s[0] == a[0];
    SignAndBodyOfDigits(s);
    LeadingDigitsStop(a, "." + b);
    FractionOfDecimal(a, b);
    assert s[..|a|] == a;
    ParseFloatUnsigned(s, |a|, b);
  }

  /** `parseFloat` of unsigned text from its run of digits and its fraction digits. */
  lemma ParseFloatUnsigned(s: string, k: nat, frac: string)
    requires SignAndBody(s) == (false, s)
    requires LeadingDigits(s) == k && FractionDigits(s) == frac && k > 0
    ensures ParseFloat(s).Some? && ParseFloat(s).value == DigitsValue(s[..k]) as real + DecimalFraction(frac)
  {
  }

  lemma FractionOfDecimal(a: string, b: string)
    requires AllDigits(a) && AllDigits(b)
    ensures FractionDigits(a + "." + b) == b
  {
    var s := a + "." + b;
    assert s == a + ("." + b);
    LeadingDigitsStop(a, "." + b);
    assert s[|a|] == '.';
    assert s[|a| + 1..] == b;
    LeadingDigitsAll(b);
    assert b[..|b|] == b;
  }

  /** The run of leading digits ends where the first non-digit starts. */
  lemma LeadingDigitsStop(a: string, rest: string)
    requires AllDigits(a) && rest != [] && !IsDigit(rest[0])
    ensures LeadingDigits(a + rest) == |a|
  {
    var s := a + rest;
    var k := LeadingDigits(s);
    assert forall j :: 0 <= j < |a| ==> IsDigit(s[j]);
    assert !IsDigit(s[|a|]);
    assert forall j :: 0 <= j < k ==> IsDigit(s[j]) by {
      forall j | 0 <= j < k ensures IsDigit(s[j]) { assert s[..k][j] == s[j]; }
    }
  }

  lemma LeadingDigitsAll(b: string)
    requires AllDigits(b)
    ensures LeadingDigits(b) == |b|
  {
  }

  /** `parseFloat(s.replace(',', '.')) || 0`: the locale-tolerant reading of a decimal
      field, where a comma may stand for the decimal point. */
  function ParseDecimal(s: string): (v: real)
    ensures var p := ParseFloat(ReplaceFirst(s, ',', '.'));
      && (p.None? ==> v == 0.0)
      && (p.Some? && p.value != 0.0 ==> v == p.value)
      && (v != 0.0 ==> p.Some? && p.value == v)
  {
    OrElse(ParseFloat(ReplaceFirst(s, ',', '.')), 0.0)
  }

  /** A field holding only digits reads as their value. */
  lemma ParseDecimalOfDigits(s: string)
    requires s != [] && AllDigits(s)
    ensures ParseDecimal(s) == DigitsValue(s) as real
  {
    assert ',' !in s by {
      forall i | 0 <= i < |s| ensures s[i] != ',' { assert IsDigit(s[i]); }
    }
    assert ReplaceFirst(s, ',', '.') == s;
    ParseFloatOfDigits(s);
  }

  // ---------------------------------------------------------------------------
  // join

  /** `parts.join(sep)`. */
  function Join(parts: seq<string>, sep: string): (r: string)
    ensures parts == [] ==> r == []
    ensures |parts| == 1 ==> r == parts[0]
    ensures |parts| > 1 ==> parts[0] + sep <= r
    ensures |parts| > 1 ==> r == parts[0] + sep + Join(parts[1..], sep)
    ensures (forall i :: 0 <= i < |parts| ==> parts[i] != []) ==> (r == [] <==> parts == [])
  {
    if parts == [] then []
    else if |parts| == 1 then parts[0]
    else
      parts[0] + sep + Join(parts[1..], sep)
  }

  /** Joining one more part appends the separator and that part. */
  lemma {:induction false} JoinSnoc(parts: seq<string>, p: string, sep: string)
    requires parts != []
    ensures Join(parts + [p], sep) == Join(parts, sep) + sep + p
    decreases |parts|
  {
    var all := parts + [p];
    assert all[0] == parts[0];
    if |parts| == 1 {
      assert all[1..] == [p];
    } else {
      var rest := parts[1..];
      assert all[1..] == rest + [p];
      JoinSnoc(rest, p, sep);
      var head, tail := parts[0] + sep, Join(rest, sep);
      assert Join(parts, sep) == head + tail;
      assert Join(all, sep) == head + (tail + sep + p);
    }
  }
}
