/**
 * The JavaScript built-ins the handlers lean on, written out: the white-space class
 * shared by the `\s` regular-expression escape and by `parseInt`, `parseInt` itself
 * (with the `isNaN` test folded into an Option), and `String.prototype.split(" ")`.
 */
module JsStrings {
  import opened Wrappers

  /** ECMAScript WhiteSpace and LineTerminator code points: what `\s` matches and `parseInt` skips. */
  predicate IsJsSpace(c: char) {
    var n := c as int;
    n == 0x09 || n == 0x0A || n == 0x0B || n == 0x0C || n == 0x0D || n == 0x20
    || n == 0xA0 || n == 0x1680 || (0x2000 <= n <= 0x200A) || n == 0x2028
    || n == 0x2029 || n == 0x202F || n == 0x205F || n == 0x3000 || n == 0xFEFF
  }

  predicate IsDecimalDigit(c: char) {
    '0' <= c <= '9'
  }

  // ---------------------------------------------------------------------------
  // parseInt(s) with no radix argument, then isNaN
  // ---------------------------------------------------------------------------

  /** The string with its leading white space removed. */
  function TrimStart(s: string): (r: string)
    ensures |r| <= |s| && r == s[|s| - |r|..]
    ensures r == [] || !IsJsSpace(r[0])
    ensures forall i :: 0 <= i < |s| - |r| ==> IsJsSpace(s[i])
  {
    if s != [] && IsJsSpace(s[0]) then TrimStart(s[1..]) else s
  }

  /** The value of a digit in radix 36; 36 for a character that is a digit in no radix. */
  function DigitValue(c: char): nat {
    if '0' <= c <= '9' then c as int - '0' as int
    else if 'a' <= c <= 'z' then c as int - 'a' as int + 10
    else if 'A' <= c <= 'Z' then c as int - 'A' as int + 10
    else 36
  }

  predicate IsDigitIn(c: char, radix: nat) {
    DigitValue(c) < radix
  }

  /** The longest prefix of s made of radix digits. */
  function DigitPrefix(s: string, radix: nat): (r: string)
    ensures r <= s
    ensures forall i :: 0 <= i < |r| ==> IsDigitIn(r[i], radix)
    ensures |r| == |s| || !IsDigitIn(s[|r|], radix)
  {
    if s != [] && IsDigitIn(s[0], radix) then [s[0]] + DigitPrefix(s[1..], radix) else []
  }

  /** The number a digit string denotes in the given radix, most significant digit first. */
  function DigitsValue(z: string, radix: nat): nat {
    if z == [] then 0 else DigitsValue(z[..|z| - 1], radix) * radix + DigitValue(z[|z| - 1])
  }

  /** The magnitude part of `parseInt`: an optional `0x`/`0X` prefix, then the longest digit run. */
  function ParseMagnitude(u: string): (r: Option<nat>)
    ensures r.Some? ==> u != [] && IsDecimalDigit(u[0])
  {
    var hex := |u| >= 2 && u[0] == '0' && (u[1] == 'x' || u[1] == 'X');
    var radix := if hex then 16 else 10;
    var z := DigitPrefix(if hex then u[2..] else u, radix);
    if z == [] then None
    else
      assert !hex ==> u[0] == z[0];
      Some(DigitsValue(z, radix))
  }

  /** The text after one leading sign, if there is one. */
  function DropSign(t: string): (u: string)
    ensures u == t || (t != [] && u == t[1..])
  {
    if t != [] && (t[0] == '-' || t[0] == '+') then t[1..] else t
  }

  /**
   * `parseInt(s)` followed by `isNaN`: None where JavaScript yields NaN. Leading white
   * space is skipped, one sign is read, a `0x`/`0X` prefix switches to radix 16, and the
   * longest run of digits that follows is the number; text after it is ignored.
   */
  function ParseInt(s: string): (r: Option<int>)
    ensures r.Some? ==> exists i :: 0 <= i < |s| && IsDecimalDigit(s[i])
  {
    var t := TrimStart(s);
    var u := DropSign(t);
    match ParseMagnitude(u)
    case None => None
    case Some(v) =>
      assert s[|s| - |u|] == u[0];
      var w: int := v;
      Some(if t[0] == '-' then -w else w)
  }

  function DigitChar(d: nat): (c: char)
    requires d < 10
    ensures IsDecimalDigit(c) && DigitValue(c) == d
  {
    ('0' as int + d) as char
  }

  /** The decimal numeral of n, as a client writes an id into a URL path. */
  function DecimalString(n: nat): (r: string)
    ensures |r| >= 1
    ensures forall i :: 0 <= i < |r| ==> IsDecimalDigit(r[i])
    ensures DigitsValue(r, 10) == n
  {
    if n < 10 then [DigitChar(n)]
    else
      var r := DecimalString(n / 10) + [DigitChar(n % 10)];
      assert r[..|r| - 1] == DecimalString(n / 10);
      r
  }

  lemma {:induction false} DigitPrefixOfDigits(d: string, rest: string, radix: nat)
    requires forall i :: 0 <= i < |d| ==> IsDigitIn(d[i], radix)
    requires rest == [] || !IsDigitIn(rest[0], radix)
    ensures DigitPrefix(d + rest, radix) == d
  {
    if d != [] {
      assert (d + rest)[1..] == d[1..] + rest;
      DigitPrefixOfDigits(d[1..], rest, radix);
    } else {
      assert d + rest == rest;
    }
  }

  /** A digit run with no hexadecimal prefix is read as a decimal number. */
  lemma {:induction false} ParseMagnitudeDecimal(d: string, rest: string)
    requires d != [] && forall i :: 0 <= i < |d| ==> IsDecimalDigit(d[i])
    requires rest == [] || (!IsDecimalDigit(rest[0]) && (d != "0" || (rest[0] != 'x' && rest[0] != 'X')))
    ensures ParseMagnitude(d + rest) == Some(DigitsValue(d, 10))
  {
    var u := d + rest;
    assert !(|u| >= 2 && u[0] == '0' && (u[1] == 'x' || u[1] == 'X')) by {
      if |d| >= 2 { assert u[1] == d[1]; }
      else if rest != [] { assert u[1] == rest[0]; if d != "0" { assert u[0] == d[0] != '0'; } }
    }
    DigitPrefixOfDigits(d, rest, 10);
  }

  /** The magnitude stage reads an id's numeral back when the text after it does not continue it. */
  lemma {:induction false} NumeralMagnitude(n: nat, rest: string)
    requires rest == [] || (!IsDecimalDigit(rest[0]) && (n != 0 || (rest[0] != 'x' && rest[0] != 'X')))
    ensures ParseMagnitude(DecimalString(n) + rest) == Some(n)
  {
    DecimalStringOfZero(n);
    ParseMagnitudeDecimal(DecimalString(n), rest);
  }

  /** Only 0 has the numeral "0". */
  lemma DecimalStringOfZero(n: nat)
    ensures DecimalString(n) == "0" ==> n == 0
  {
    if DecimalString(n) == "0" {
      assert DigitsValue("0", 10) == DigitsValue("", 10) * 10 + DigitValue('0');
    }
  }

  lemma TrimStartStops(u: string)
    requires u != [] && !IsJsSpace(u[0])
    ensures TrimStart(u) == u
  {
  }

  lemma DropSignKeeps(u: string)
    requires u != [] && u[0] != '-' && u[0] != '+'
    ensures DropSign(u) == u
  {
  }

  lemma MinusStages(u: string)
    ensures TrimStart("-" + u) == "-" + u
    ensures DropSign("-" + u) == u
  {
    var m := "-" + u;
    assert m[0] == '-' && m[1..] == u;
    TrimStartStops(m);
  }

  /** ParseInt in its three stages: white space, sign, magnitude. */
  lemma ParseIntStages(s: string, u: string, v: nat)
    requires DropSign(TrimStart(s)) == u && ParseMagnitude(u) == Some(v)
    ensures ParseInt(s).Some?
    ensures ParseInt(s).value == if TrimStart(s)[0] == '-' then -(v as int) else v
  {
  }

  /**
   * Parsing the decimal numeral of an id gives the id back when the text after it does not
   * continue the number: it starts with no digit, and, after the numeral "0", with no `x` or `X`.
   */
  lemma {:induction false} ParseIntDecimal(n: nat, rest: string)
    requires rest == [] || (!IsDecimalDigit(rest[0]) && (n != 0 || (rest[0] != 'x' && rest[0] != 'X')))
    ensures ParseInt(DecimalString(n) + rest) == Some(n)
  {
    var u := DecimalString(n) + rest;
    NumeralMagnitude(n, rest);
    TrimStartStops(u);
    DropSignKeeps(u);
    ParseIntStages(u, u, n);
  }

  /** With a minus sign in front, the negated id. */
  lemma {:induction false} ParseIntNegatedDecimal(n: nat, rest: string)
    requires rest == [] || (!IsDecimalDigit(rest[0]) && (n != 0 || (rest[0] != 'x' && rest[0] != 'X')))
    ensures ParseInt("-" + DecimalString(n) + rest) == Some(-(n as int))
  {
    var u := DecimalString(n) + rest;
    NumeralMagnitude(n, rest);
    assert "-" + DecimalString(n) + rest == "-" + u;
    NegatedMagnitude(u, n);
  }

  /** A minus sign before a magnitude the last stage reads as v gives -v. */
  lemma NegatedMagnitude(u: string, v: nat)
    requires ParseMagnitude(u) == Some(v)
    ensures ParseInt("-" + u) == Some(-(v as int))
  {
    MinusStages(u);
    ParseIntStages("-" + u, u, v);
    var p := ParseInt("-" + u);
    assert p.Some? && p.value == -(v as int);
    assert p == Some(p.value);
  }

  /** A string that does not start (after white space and a sign) with a digit is NaN. */
  lemma ParseIntNaN(s: string)
    requires s == [] || (!IsJsSpace(s[0]) && s[0] != '-' && s[0] != '+' && DigitValue(s[0]) >= 10)
    ensures ParseInt(s) == None
  {
  }

  /** "12abc" reads as 12: the digits before the first non-digit. */
  lemma ParseIntTrailingText()
    ensures ParseInt("12abc") == Some(12)
  {
    assert DecimalString(12) + "abc" == "12abc";
    ParseIntDecimal(12, "abc");
  }

  /** "abc" reads as NaN. */
  lemma ParseIntLetters()
    ensures ParseInt("abc") == None
  {
    ParseIntNaN("abc");
  }

  // ---------------------------------------------------------------------------
  // s.split(" ")
  // ---------------------------------------------------------------------------

  /** The number of spaces in s. */
  function SpaceCount(s: string): nat {
    if s == [] then 0 else (if s[0] == ' ' then 1 else 0) + SpaceCount(s[1..])
  }

  /** `s.split(" ")`: the pieces of s between single spaces, in order, empty pieces kept. */
  function Split(s: string): (r: seq<string>)
    ensures |r| == SpaceCount(s) + 1
    ensures forall i :: 0 <= i < |r| ==> ' ' !in r[i]
  {
    if s == [] then [[]]
    else
      var rest := Split(s[1..]);
      if s[0] == ' ' then [[]] + rest
      else [[s[0]] + rest[0]] + rest[1..]
  }

  /** `pieces.join(" ")`. */
  function Join(pieces: seq<string>): string {
    if |pieces| == 0 then []
    else if |pieces| == 1 then pieces[0]
    else pieces[0] + " " + Join(pieces[1..])
  }

  /** Splitting loses nothing: joining the pieces again gives the original string. */
  lemma {:induction false} JoinSplit(s: string)
    ensures Join(Split(s)) == s
  {
    if s != [] {
      var rest := Split(s[1..]);
      JoinSplit(s[1..]);
      if s[0] == ' ' {
        assert Split(s) == [[]] + rest;
        assert ([[]] + rest)[1..] == rest;
      } else if |rest| == 1 {
        assert Split(s) == [[s[0]] + rest[0]];
      } else {
        var r := [[s[0]] + rest[0]] + rest[1..];
        assert r[1..] == rest[1..];
        assert Join(rest) == rest[0] + " " + Join(rest[1..]);
      }
    }
  }

  /** A string with no space is one piece. */
  lemma {:induction false} SplitWord(a: string)
    requires ' ' !in a
    ensures Split(a) == [a]
  {
    if a != [] {
      assert ' ' !in a[1..];
      SplitWord(a[1..]);
      assert [a[0]] + a[1..] == a;
    }
  }

  /** A word followed by a space is the first piece; the rest is split on its own. */
  lemma {:induction false} SplitWordThenSpace(a: string, b: string)
    requires ' ' !in a
    ensures Split(a + " " + b) == [a] + Split(b)
  {
    if a == [] {
      assert a + " " + b == [' '] + b;
      assert ([' '] + b)[1..] == b;
    } else {
      var s := a + " " + b;
      assert s[1..] == a[1..] + " " + b;
      assert ' ' !in a[1..];
      SplitWordThenSpace(a[1..], b);
      assert [a[0]] + a[1..] == a;
    }
  }
}
