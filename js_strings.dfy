/** The parts of JavaScript's string and number behaviour the server relies on:
    `toLowerCase`, `includes`, `parseInt`, `parseFloat` on a decimal rating,
    and the decimal text of an integer and of a rating. */
module JsStrings {
  import opened Wrappers

  // ----- toLowerCase and includes -----

  predicate IsUpper(c: char) { 'A' <= c <= 'Z' }

  function LowerChar(c: char): char
  {
    if IsUpper(c) then (c as int - 'A' as int + 'a' as int) as char else c
  }

  /** `s.toLowerCase()`, on the ASCII letters. */
  function ToLowerCase(s: string): (r: string)
    ensures |r| == |s|
    ensures forall i :: 0 <= i < |s| ==> r[i] == LowerChar(s[i])
  {
    seq(|s|, i requires 0 <= i < |s| => LowerChar(s[i]))
  }

  /** `s.includes(q)`: `q` occurs in `s` at some position. */
  predicate Includes(s: string, q: string)
  {
    q <= s || (s != [] && Includes(s[1..], q))
  }

  /** `includes` agrees with the positional definition of a substring. */
  lemma {:induction false} IncludesAt(s: string, q: string)
    ensures Includes(s, q) <==> exists i :: 0 <= i <= |s| && q <= s[i..]
  {
    if q <= s {
      assert s[0..] == s;
    } else if s == [] {
      forall i | 0 <= i <= |s| ensures !(q <= s[i..]) {
        assert s[i..] == s;
      }
    } else {
      IncludesAt(s[1..], q);
      if Includes(s[1..], q) {
        var j :| 0 <= j <= |s[1..]| && q <= s[1..][j..];
        assert s[1..][j..] == s[j + 1..];
      } else {
        forall i | 0 <= i <= |s| ensures !(q <= s[i..]) {
          if i > 0 {
            assert s[i..] == s[1..][i - 1..];
          } else {
            assert s[0..] == s;
          }
        }
      }
    }
  }

  /** Every string includes the empty string. */
  lemma IncludesEmpty(s: string)
    ensures Includes(s, "")
  {
  }

  // ----- decimal digits -----

  predicate IsDigit(c: char) { '0' <= c <= '9' }

  predicate AllDigits(s: string) { forall i :: 0 <= i < |s| ==> IsDigit(s[i]) }

  function DigitValue(c: char): nat
  {
    if IsDigit(c) then c as int - '0' as int else 0
  }

  function DigitChar(d: nat): (c: char)
    requires d < 10
    ensures IsDigit(c) && DigitValue(c) == d
  {
    ('0' as int + d) as char
  }

  function Pow10(n: nat): (p: nat)
    ensures p >= 1
  {
    if n == 0 then 1 else 10 * Pow10(n - 1)
  }

  /** The value of a string of decimal digits, most significant first. */
  function DigitsValue(ds: string): nat
  {
    if ds == [] then 0 else 10 * DigitsValue(ds[..|ds| - 1]) + DigitValue(ds[|ds| - 1])
  }

  /** A string of `n` digits denotes a number below `10^n`. */
  lemma {:induction false} DigitsValueBound(ds: string)
    ensures DigitsValue(ds) < Pow10(|ds|)
  {
    if ds != [] {
      DigitsValueBound(ds[..|ds| - 1]);
    }
  }

  /** The maximal prefix of `s` made of digits. */
  function LeadingDigits(s: string): (r: string)
    ensures r <= s && AllDigits(r)
    ensures |r| < |s| ==> !IsDigit(s[|r|])
  {
    if s != [] && IsDigit(s[0]) then [s[0]] + LeadingDigits(s[1..]) else []
  }

  /** Digits followed by a non-digit (or nothing) are exactly the leading digits. */
  lemma {:induction false} LeadingDigitsOf(a: string, b: string)
    requires AllDigits(a)
    requires b == [] || !IsDigit(b[0])
    ensures LeadingDigits(a + b) == a
  {
    if a != [] {
      LeadingDigitsOf(a[1..], b);
      assert (a + b)[1..] == a[1..] + b;
      assert a == [a[0]] + a[1..];
    } else {
      assert a + b == b;
    }
  }

  // ----- Number.prototype.toString and template interpolation -----

  /** The decimal text of a natural number, without leading zeros. */
  function NatToString(n: nat): (r: string)
    ensures |r| >= 1 && AllDigits(r)
    ensures DigitsValue(r) == n
  {
    if n < 10 then [DigitChar(n)]
    else
      var r := NatToString(n / 10) + [DigitChar(n % 10)];
      assert r[..|r| - 1] == NatToString(n / 10);
      r
  }

  /** The decimal text of an integer, with a leading '-' when negative. */
  function IntToString(n: int): (r: string)
    ensures r != [] && (IsDigit(r[0]) || r[0] == '-')
    ensures forall i :: 0 <= i < |r| ==> r[i] != '_'
  {
    if n < 0 then "-" + NatToString(-n) else NatToString(n)
  }

  // ----- parseInt -----

  predicate IsWhitespace(c: char)
  {
    c == ' ' || c == '\t' || c == '\n' || c == '\r' || c == '\U{B}' || c == '\U{C}'
  }

  function TrimStart(s: string): (r: string)
    ensures r == [] || !IsWhitespace(r[0])
    ensures |r| <= |s| && r == s[|s| - |r|..]
  {
    if s != [] && IsWhitespace(s[0]) then TrimStart(s[1..]) else s
  }

  /** `parseInt(s)` in base 10: leading white space, an optional sign and the
      longest run of digits; `None` stands for `NaN` (no digits at all). */
  function ParseInt(s: string): Option<int>
  {
    var t := TrimStart(s);
    var negative := t != [] && t[0] == '-';
    var body := if t != [] && (t[0] == '-' || t[0] == '+') then t[1..] else t;
    var ds := LeadingDigits(body);
    if ds == [] then None
    else
      var v: int := DigitsValue(ds);
      Some(if negative then -v else v)
  }

  /** `parseInt` reads back the decimal text of every integer. */
  lemma ParseIntRoundTrip(n: int)
    ensures ParseInt(IntToString(n)) == Some(n)
  {
    var s := IntToString(n);
    assert !IsWhitespace(s[0]);
    assert TrimStart(s) == s;
    if n < 0 {
      var digits := NatToString(-n);
      assert s[1..] == digits;
      LeadingDigitsOf(digits, []);
      assert digits + [] == digits;
      assert LeadingDigits(s[1..]) == digits;
    } else {
      LeadingDigitsOf(s, []);
      assert s + [] == s;
      assert LeadingDigits(s) == s;
    }
  }

  /** A non-empty string of digits parses to its value. */
  lemma ParseIntOfDigits(ds: string)
    requires ds != [] && AllDigits(ds)
    ensures ParseInt(ds) == Some(DigitsValue(ds) as int)
  {
    assert !IsWhitespace(ds[0]);
    assert TrimStart(ds) == ds;
    LeadingDigitsOf(ds, []);
    assert ds + [] == ds;
  }

  /** Text that does not start with a sign or a digit (after white space)
      parses to `NaN`. */
  lemma ParseIntNaN(s: string)
    requires var t := TrimStart(s); t == [] || !(IsDigit(t[0]) || t[0] == '-' || t[0] == '+')
    ensures ParseInt(s) == None
  {
  }

  // ----- ratings: parseFloat and Number.prototype.toString -----

  /** The value of the digits after a decimal point. */
  function FractionValue(ds: string): (v: real)
    ensures 0.0 <= v <= 1.0
  {
    if ds == [] then 0.0 else (DigitValue(ds[0]) as real + FractionValue(ds[1..])) / 10.0
  }

  /** `parseFloat(s)` on a well-formed decimal, digits with an optional
      fractional part; `None` for any other text. */
  function ParseDecimal(s: string): Option<real>
  {
    var whole := LeadingDigits(s);
    var rest := s[|whole|..];
    if whole == [] then None
    else if rest == [] then Some(DigitsValue(whole) as real)
    else if rest[0] == '.' && |rest| > 1 && AllDigits(rest[1..]) then
      Some(DigitsValue(whole) as real + FractionValue(rest[1..]))
    else None
  }

  /** `(t / 10).toString()` for a rating given in tenths: "4", "4.5", "0". */
  function TenthsToString(t: nat): string
  {
    NatToString(t / 10) + (if t % 10 == 0 then "" else "." + [DigitChar(t % 10)])
  }

  /** The text of a rating parses back to the rating. */
  lemma TenthsRoundTrip(t: nat)
    ensures ParseDecimal(TenthsToString(t)) == Some(t as real / 10.0)
  {
    var whole := NatToString(t / 10);
    var tail := if t % 10 == 0 then "" else "." + [DigitChar(t % 10)];
    LeadingDigitsOf(whole, tail);
    assert TenthsToString(t)[|whole|..] == tail;
    assert t == 10 * (t / 10) + t % 10;
    if t % 10 != 0 {
      var f := [DigitChar(t % 10)];
      assert tail[1..] == f;
      assert FractionValue(f) == (t % 10) as real / 10.0 by {
        assert f[1..] == [];
      }
    }
  }
}
