/**
 * The pieces of JavaScript value semantics the route handlers rely on:
 * truthiness of a request field, `v || fallback`, `String.prototype.trim`
 * (which Mongoose's `trim` schema option applies) and `parseInt(s, 10)`.
 */
module Js {
  import opened Wrappers

  /** A request-body or query field, as seen by `if (v)`: absent and "" are falsy. */
  predicate Truthy(v: Option<string>)
  {
    v.Some? && v.value != ""
  }

  /** `v || fallback` on an optional string field. */
  function OrElse(v: Option<string>, fallback: string): string
  {
    if Truthy(v) then v.value else fallback
  }

  /**
   * The characters ECMAScript counts as white space or line terminators
   * (WhiteSpace and LineTerminator of ECMA-262, section 12.2 and 12.3),
   * which both `trim` and `parseInt` skip.
   */
  predicate IsWhitespace(c: char)
  {
    || c == '\t' || c == '\n' || c == '\U{B}' || c == '\U{C}' || c == '\r' || c == ' '
    || c == '\U{A0}' || c == '\U{1680}' || ('\U{2000}' <= c <= '\U{200A}')
    || c == '\U{2028}' || c == '\U{2029}' || c == '\U{202F}' || c == '\U{205F}'
    || c == '\U{3000}' || c == '\U{FEFF}'
  }

  /** Neither end of `s` is white space. */
  predicate Trimmed(s: string)
  {
    s == "" || (!IsWhitespace(s[0]) && !IsWhitespace(s[|s| - 1]))
  }

  /** Drops the leading white space: the result is a suffix of `s`, and all that was dropped is blank. */
  function TrimStart(s: string): (r: string)
    ensures |r| <= |s| && r == s[|s| - |r|..]
    ensures forall k :: 0 <= k < |s| - |r| ==> IsWhitespace(s[k])
    ensures r == "" || !IsWhitespace(r[0])
  {
    if s != "" && IsWhitespace(s[0]) then TrimStart(s[1..]) else s
  }

  /** Drops the trailing white space: the result is a prefix of `s`, and all that was dropped is blank. */
  function TrimEnd(s: string): (r: string)
    ensures |r| <= |s| && r == s[..|r|]
    ensures forall k :: |r| <= k < |s| ==> IsWhitespace(s[k])
    ensures r == "" || !IsWhitespace(r[|r| - 1])
  {
    if s != "" && IsWhitespace(s[|s| - 1]) then TrimEnd(s[..|s| - 1]) else s
  }

  /**
   * `String.prototype.trim`: `s` without its blank ends. The result is a
   * prefix of `s` without its leading blanks, and only blanks follow it
   * there; neither of its ends is blank; a trimmed value comes back unchanged.
   */
  function Trim(s: string): (r: string)
    ensures r <= TrimStart(s)
    ensures forall k :: |r| <= k < |TrimStart(s)| ==> IsWhitespace(TrimStart(s)[k])
    ensures Trimmed(r) && |r| <= |s|
    ensures Trimmed(s) ==> r == s
  {
    var t := TrimStart(s);
    var r := TrimEnd(t);
    assert r == "" || r[0] == t[0];
    r
  }

  /** Trimming twice is trimming once. */
  lemma TrimIdempotent(s: string)
    ensures Trim(Trim(s)) == Trim(s)
  {
  }

  predicate IsDigit(c: char)
  {
    '0' <= c <= '9'
  }

  predicate AllDigits(s: string)
  {
    forall k :: 0 <= k < |s| ==> IsDigit(s[k])
  }

  /** The longest prefix of `s` made of decimal digits. */
  function LeadingDigits(s: string): (r: string)
    ensures r <= s && AllDigits(r)
    ensures |r| < |s| ==> !IsDigit(s[|r|])
  {
    if s != "" && IsDigit(s[0]) then [s[0]] + LeadingDigits(s[1..]) else ""
  }

  /** The number a string of decimal digits denotes. */
  function DigitsValue(s: string): nat
    requires AllDigits(s)
  {
    if s == "" then 0
    else DigitsValue(s[..|s| - 1]) * 10 + (s[|s| - 1] as int - '0' as int)
  }

  /** What follows the optional sign of a string that has lost its leading blanks. */
  function Unsigned(t: string): string
  {
    if t != "" && (t[0] == '-' || t[0] == '+') then t[1..] else t
  }

  /**
   * `parseInt(s, 10)`: skip leading white space, read an optional sign and
   * then the longest run of digits; no digit at all is `NaN` (here `None`).
   * Whatever follows the digits is ignored.
   */
  function ParseInt(s: string): (r: Option<int>)
    ensures r.None? <==> LeadingDigits(Unsigned(TrimStart(s))) == ""
    ensures r.Some? ==> (r.value < 0 ==> TrimStart(s)[0] == '-')
  {
    ParseSigned(TrimStart(s))
  }

  /** `parseInt` of a string that has lost its leading white space. */
  function ParseSigned(t: string): (r: Option<int>)
    ensures r.None? <==> LeadingDigits(Unsigned(t)) == ""
    ensures r.Some? ==> (r.value < 0 ==> t[0] == '-')
  {
    var z := LeadingDigits(Unsigned(t));
    if z == "" then None
    else
      var v: int := DigitsValue(z);
      if t[0] == '-' then Some(-v) else Some(v)
  }

  /** The decimal digit for `d < 10`. */
  function DigitChar(d: nat): (c: char)
    requires d < 10
    ensures IsDigit(c) && c as int - '0' as int == d
  {
    ('0' as int + d) as char
  }

  /**
   * The canonical decimal numeral of `n`: the reference writer that the
   * `parseInt` reader is proved to invert.
   */
  function Decimal(n: nat): (s: string)
    ensures s != "" && AllDigits(s)
  {
    if n < 10 then [DigitChar(n)] else Decimal(n / 10) + [DigitChar(n % 10)]
  }

  /** Reading the canonical numeral of `n` as digits gives `n` back. */
  lemma {:induction false} DecimalValue(n: nat)
    ensures DigitsValue(Decimal(n)) == n
  {
    var s := Decimal(n);
    if n >= 10 {
      DecimalValue(n / 10);
      assert s[..|s| - 1] == Decimal(n / 10);
    }
  }

  lemma {:induction false} LeadingDigitsOfDigits(p: string, rest: string)
    requires AllDigits(p)
    requires rest == "" || !IsDigit(rest[0])
    ensures LeadingDigits(p + rest) == p
  {
    if p != "" {
      assert (p + rest)[1..] == p[1..] + rest;
      LeadingDigitsOfDigits(p[1..], rest);
    } else {
      assert p + rest == rest;
    }
  }

  /** A string whose first character is not blank has nothing for `TrimStart` to drop. */
  lemma TrimStartOfNonBlank(s: string)
    requires s != "" && !IsWhitespace(s[0])
    ensures TrimStart(s) == s
  {
  }

  /** `parseInt` reads back a decimal numeral, whatever non-digit text follows it. */
  lemma ParseIntOfDecimal(n: nat, rest: string)
    requires rest == "" || !IsDigit(rest[0])
    ensures ParseInt(Decimal(n) + rest) == Some(n)
  {
    var d := Decimal(n);
    var m := d + rest;
    assert m[0] == d[0];
    TrimStartOfNonBlank(m);
    assert Unsigned(m) == m;
    LeadingDigitsOfDigits(d, rest);
    DecimalValue(n);
  }

  /** With a leading minus sign `parseInt` reads back the negated numeral. */
  lemma ParseIntOfNegativeDecimal(n: nat, rest: string)
    requires rest == "" || !IsDigit(rest[0])
    ensures ParseInt("-" + Decimal(n) + rest) == Some(-(n as int))
  {
    var d := Decimal(n);
    var m := "-" + d + rest;
    TrimStartOfNonBlank(m);
    assert Unsigned(m) == d + rest;
    LeadingDigitsOfDigits(d, rest);
    DecimalValue(n);
  }

  /** Leading white space does not change what `parseInt` reads. */
  lemma ParseIntSkipsWhitespace(c: char, s: string)
    requires IsWhitespace(c)
    ensures ParseInt([c] + s) == ParseInt(s)
  {
    var m := [c] + s;
    assert m != "" && m[0] == c && m[1..] == s;
    assert TrimStart(m) == TrimStart(s);
    assert ParseInt(m) == ParseSigned(TrimStart(s));
  }

  /** A `+` sign in front of the digits is read and dropped. */
  lemma ParseIntOfPlus(s: string)
    requires s != "" && IsDigit(s[0])
    ensures ParseInt("+" + s) == ParseInt(s)
  {
    var m := "+" + s;
    TrimStartOfNonBlank(m);
    TrimStartOfNonBlank(s);
    assert Unsigned(m) == s;
    assert Unsigned(s) == s;
  }

  /** A leading zero adds nothing to the value of a string of digits. */
  lemma {:induction false} DigitsValueOfLeadingZero(s: string)
    requires AllDigits(s)
    ensures AllDigits("0" + s) && DigitsValue("0" + s) == DigitsValue(s)
  {
    var z := "0" + s;
    if s != "" {
      assert z[..|z| - 1] == "0" + s[..|s| - 1] && z[|z| - 1] == s[|s| - 1];
      DigitsValueOfLeadingZero(s[..|s| - 1]);
    }
  }

  /** Leading zeros do not change what `parseInt` reads: `parseInt("007")` is 7. */
  lemma ParseIntOfLeadingZero(n: nat, rest: string)
    requires rest == "" || !IsDigit(rest[0])
    ensures ParseInt("0" + Decimal(n) + rest) == Some(n)
  {
    var d := Decimal(n);
    var m := "0" + d + rest;
    assert m == ("0" + d) + rest && m[0] == '0';
    TrimStartOfNonBlank(m);
    assert Unsigned(m) == m;
    DigitsValueOfLeadingZero(d);
    LeadingDigitsOfDigits("0" + d, rest);
    DecimalValue(n);
  }
}
