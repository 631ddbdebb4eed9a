/**
 * The global `parseInt(string)` of ECMAScript (section 19.2.5 of ECMA-262),
 * called with one argument as the route handlers do, and the decimal
 * rendering of an integer that a template literal such as
 * `/api/notes/${id}` produces.
 */
module JsParse {
  import opened Wrappers

  /** A value produced by `parseInt`: NaN or an integral number. +0 and -0
      are both `Finite(0)`; every caller here treats them alike (both are falsy). */
  datatype JsNumber = NaN | Finite(value: int)

  /** WhiteSpace or LineTerminator code points (sections 12.2 and 12.3 of ECMA-262),
      which `TrimString(_, start)` strips. Space_Separator (Zs) is written out. */
  predicate IsWhiteOrTerminator(c: char) {
    var n := c as int;
    n == 0x09 || n == 0x0B || n == 0x0C || n == 0x20 || n == 0xA0 || n == 0xFEFF
    || n == 0x1680 || (0x2000 <= n <= 0x200A) || n == 0x202F || n == 0x205F || n == 0x3000
    || n == 0x0A || n == 0x0D || n == 0x2028 || n == 0x2029
  }

  /** Leading white space removed: the result is a suffix of `s`, what was
      dropped is all white space, and the result does not start with any. */
  function TrimStart(s: string): (t: string)
    ensures |t| <= |s| && t == s[|s| - |t|..]
    ensures t == [] || !IsWhiteOrTerminator(t[0])
  {
    if |s| > 0 && IsWhiteOrTerminator(s[0]) then TrimStart(s[1..]) else s
  }

  /** What `TrimStart` drops is all white space. */
  lemma {:induction false} TrimStartDropsWhite(s: string)
    ensures forall i :: 0 <= i < |s| - |TrimStart(s)| ==> IsWhiteOrTerminator(s[i])
  {
    if |s| > 0 && IsWhiteOrTerminator(s[0]) {
      TrimStartDropsWhite(s[1..]);
      forall i | 1 <= i < |s| - |TrimStart(s)| ensures IsWhiteOrTerminator(s[i]) {
        assert s[i] == s[1..][i - 1];
      }
    }
  }

  /** The value of a character as a digit of radix up to 36; 36 for a non-digit. */
  function DigitValue(c: char): nat {
    if '0' <= c <= '9' then (c as int) - ('0' as int)
    else if 'a' <= c <= 'z' then (c as int) - ('a' as int) + 10
    else if 'A' <= c <= 'Z' then (c as int) - ('A' as int) + 10
    else 36
  }

  predicate IsRadixDigit(c: char, radix: nat) {
    DigitValue(c) < radix
  }

  /** The longest prefix of `s` made of radix-`radix` digits (step 11 of parseInt). */
  function DigitPrefix(s: string, radix: nat): (z: string)
    ensures z <= s
    ensures forall i :: 0 <= i < |z| ==> IsRadixDigit(z[i], radix)
    ensures |z| == |s| || !IsRadixDigit(s[|z|], radix)
  {
    if |s| > 0 && IsRadixDigit(s[0], radix) then [s[0]] + DigitPrefix(s[1..], radix) else []
  }

  /** The mathematical value of a digit string in the given radix, most significant digit first. */
  function DigitsValue(z: string, radix: nat): nat {
    if z == [] then 0 else DigitsValue(z[..|z| - 1], radix) * radix + DigitValue(z[|z| - 1])
  }

  /** Steps 4 to 6 of parseInt: an optional sign in front of the rest. */
  predicate IsNegative(t: string) {
    |t| > 0 && t[0] == '-'
  }

  function Unsigned(t: string): string {
    if |t| > 0 && (t[0] == '+' || t[0] == '-') then t[1..] else t
  }

  /** Steps 8 to 15 of parseInt for an unsigned string: strip a `0x`/`0X`
      prefix (radix 16) or use radix 10, take the longest digit prefix, and
      read its value; `None` when no digit is there (NaN). */
  function Magnitude(u: string): Option<nat> {
    var hex := |u| >= 2 && u[0] == '0' && (u[1] == 'x' || u[1] == 'X');
    var radix := if hex then 16 else 10;
    var z := DigitPrefix(if hex then u[2..] else u, radix);
    if z == [] then None else Some(DigitsValue(z, radix))
  }

  /** `parseInt(s)` with an undefined radix: trim leading white space, read an
      optional sign, then the magnitude. */
  function ParseInt(s: string): (r: JsNumber)
    ensures TrimStart(s) == [] ==> r == NaN
    ensures r.Finite? && r.value < 0 ==> IsNegative(TrimStart(s))
  {
    var t := TrimStart(s);
    match Magnitude(Unsigned(t))
    case None => NaN
    case Some(m) => Finite(if IsNegative(t) then -(m as int) else m)
  }

  function DigitChar(d: nat): (c: char)
    requires d < 10
    ensures '0' <= c <= '9' && DigitValue(c) == d
  {
    (('0' as int) + d) as char
  }

  /** Decimal digits of a natural number, as `Number.prototype.toString` writes
      an integer below 10^21. */
  function DecimalString(n: nat): (s: string)
    ensures |s| > 0
    ensures forall i :: 0 <= i < |s| ==> '0' <= s[i] <= '9'
  {
    if n < 10 then [DigitChar(n)] else DecimalString(n / 10) + [DigitChar(n % 10)]
  }

  /** The string a template literal makes of an integral number: a minus
      sign exactly for a negative number, then decimal digits. */
  function NumberToString(i: int): (s: string)
    ensures |s| > 0 && (s[0] == '-' <==> i < 0)
    ensures forall k :: 1 <= k < |s| ==> '0' <= s[k] <= '9'
  {
    if i < 0 then "-" + DecimalString(-i) else DecimalString(i)
  }

  /** The decimal text of a positive number does not start with `0`. */
  lemma {:induction false} DecimalStringLeading(n: nat)
    requires n > 0
    ensures DecimalString(n)[0] != '0'
  {
    if n >= 10 {
      DecimalStringLeading(n / 10);
    }
  }

  /** Text after the decimal text of `n` that does not continue a number in
      the sense of `ParseIntOfDigits`. */
  lemma DecimalStringThen(n: nat, rest: string)
    requires rest == [] || (!IsRadixDigit(rest[0], 10) && (n != 0 || (rest[0] != 'x' && rest[0] != 'X')))
    ensures var d := DecimalString(n);
      rest == [] || (!IsRadixDigit(rest[0], 10) && (|d| > 1 || d[0] != '0' || (rest[0] != 'x' && rest[0] != 'X')))
  {
    if n != 0 {
      DecimalStringLeading(n);
    }
  }

  lemma {:induction false} DecimalStringValue(n: nat)
    ensures DigitsValue(DecimalString(n), 10) == n
  {
    var s := DecimalString(n);
    if n >= 10 {
      var p := DecimalString(n / 10);
      assert s[..|s| - 1] == p;
      DecimalStringValue(n / 10);
    }
  }

  /** The digit prefix stops at the first character that is not a digit. */
  lemma {:induction false} DigitPrefixStops(d: string, rest: string, radix: nat)
    requires forall k :: 0 <= k < |d| ==> IsRadixDigit(d[k], radix)
    requires rest == [] || !IsRadixDigit(rest[0], radix)
    ensures DigitPrefix(d + rest, radix) == d
  {
    if |d| > 0 {
      assert (d + rest)[1..] == d[1..] + rest;
      DigitPrefixStops(d[1..], rest, radix);
    } else {
      assert d + rest == rest;
    }
  }

  /** Decimal digits followed by anything that is not a digit (nor, after
      a lone `0`, the `x` of a hexadecimal prefix) have the digits' value as
      magnitude. */
  lemma {:induction false} MagnitudeOfDigits(d: string, rest: string)
    requires |d| > 0 && forall k :: 0 <= k < |d| ==> '0' <= d[k] <= '9'
    requires rest == [] || (!IsRadixDigit(rest[0], 10) && (|d| > 1 || d[0] != '0' || (rest[0] != 'x' && rest[0] != 'X')))
    ensures Magnitude(d + rest) == Some(DigitsValue(d, 10))
  {
    var u := d + rest;
    var hex := |u| >= 2 && u[0] == '0' && (u[1] == 'x' || u[1] == 'X');
    assert !hex by {
      if |u| >= 2 {
        if |d| >= 2 {
          assert u[1] == d[1];
        } else {
          assert u[1] == rest[0] && d == [u[0]];
        }
      }
    }
    assert forall k :: 0 <= k < |d| ==> IsRadixDigit(d[k], 10);
    DigitPrefixStops(d, rest, 10);
  }

  /** A string that does not start with white space is its own trimmed form. */
  lemma {:induction false} TrimStartNoop(s: string)
    requires |s| > 0 && !IsWhiteOrTerminator(s[0])
    ensures TrimStart(s) == s
  {
  }

  /** `parseInt` on an already trimmed string: the sign times the magnitude. */
  lemma {:induction false} ParseIntTrimmed(s: string, m: nat)
    requires TrimStart(s) == s
    requires Magnitude(Unsigned(s)) == Some(m)
    ensures ParseInt(s) == Finite(if IsNegative(s) then -(m as int) else m)
  {
  }

  /** `parseInt` of an optional minus sign, decimal digits and then anything
      that does not start with a digit (nor, after a lone `0`, with the `x`
      of a hexadecimal prefix) reads exactly those digits. */
  lemma {:induction false} ParseIntOfDigits(s: string, sign: string, d: string, rest: string)
    requires sign == "" || sign == "-"
    requires |d| > 0 && forall k :: 0 <= k < |d| ==> '0' <= d[k] <= '9'
    requires rest == [] || (!IsRadixDigit(rest[0], 10) && (|d| > 1 || d[0] != '0' || (rest[0] != 'x' && rest[0] != 'X')))
    requires s == sign + (d + rest)
    ensures ParseInt(s) == Finite(if sign == "-" then -(DigitsValue(d, 10) as int) else DigitsValue(d, 10))
  {
    SignedDigitsTrimmed(s, sign, d, rest);
    MagnitudeOfDigits(d, rest);
    ParseIntTrimmed(s, DigitsValue(d, 10));
  }

  /** An optional minus sign before a digit has no white space to trim, and
      splits into that sign and the text after it. */
  lemma {:induction false} SignedDigitsTrimmed(s: string, sign: string, d: string, rest: string)
    requires sign == "" || sign == "-"
    requires |d| > 0 && '0' <= d[0] <= '9'
    requires s == sign + (d + rest)
    ensures TrimStart(s) == s && Unsigned(s) == d + rest && IsNegative(s) == (sign == "-")
  {
    if sign == "" {
      assert s == d + rest;
      assert s[0] == d[0];
    } else {
      assert s[0] == '-';
      assert s[1..] == d + rest;
    }
    TrimStartNoop(s);
  }

  /** Leading white space does not change what `parseInt` reads. */
  lemma {:induction false} ParseIntSkipsWhite(c: char, s: string)
    requires IsWhiteOrTerminator(c)
    ensures ParseInt([c] + s) == ParseInt(s)
  {
    assert ([c] + s)[1..] == s;
  }

  /** `parseInt` of an optional minus sign, the decimal text of `n` and text
      that does not continue the number gives the signed `n`. */
  lemma {:induction false} ParseIntOfDecimal(s: string, negative: bool, n: nat, rest: string)
    requires rest == [] || (!IsRadixDigit(rest[0], 10) && (n != 0 || (rest[0] != 'x' && rest[0] != 'X')))
    requires s == (if negative then "-" else "") + (DecimalString(n) + rest)
    ensures ParseInt(s) == Finite(if negative then -(n as int) else n)
  {
    var d := DecimalString(n);
    DecimalStringThen(n, rest);
    if negative {
      assert ParseInt(s) == Finite(-(DigitsValue(d, 10) as int)) by {
        ParseIntOfDigits(s, "-", d, rest);
      }
    } else {
      assert ParseInt(s) == Finite(DigitsValue(d, 10)) by {
        ParseIntOfDigits(s, "", d, rest);
      }
    }
    DecimalStringValue(n);
  }

  /** `parseInt` reads back the integer a template literal wrote, whatever
      follows it that does not continue the number: anything but a digit,
      and after a zero also anything but the `x` of a hexadecimal prefix. */
  lemma {:induction false} ParseIntOfNumberThen(i: int, rest: string)
    requires rest == [] || (!IsRadixDigit(rest[0], 10) && (i != 0 || (rest[0] != 'x' && rest[0] != 'X')))
    ensures ParseInt(NumberToString(i) + rest) == Finite(i)
  {
    if i < 0 {
      ParseIntOfDecimal(NumberToString(i) + rest, true, -i, rest);
    } else {
      ParseIntOfDecimal(NumberToString(i) + rest, false, i, rest);
    }
  }

  /** Round trip: the id a client writes into a URL is read back unchanged by `parseInt`. */
  lemma {:induction false} ParseIntRoundTrip(i: int)
    ensures ParseInt(NumberToString(i)) == Finite(i)
  {
    ParseIntOfNumberThen(i, "");
    assert NumberToString(i) + "" == NumberToString(i);
  }
}
