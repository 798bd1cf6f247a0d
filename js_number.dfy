/**
 * The pieces of JavaScript number handling that the controllers and repositories rely on:
 * `parseInt(s, radix)` (section 19.2.5 of ECMA-262), the `x || fallback` idiom on its result,
 * `String(n)` for integers and `Math.ceil(a / b)`. JavaScript's NaN is `None`; the values are
 * exact integers (the loss of precision above 2^53 is not modelled).
 */
module JsNumber {
  import opened Wrappers

  /** The radix argument left out: `parseInt(s)` (ToInt32(undefined) is 0). */
  const NoRadix := 0

  /** StrWhiteSpaceChar: the white space and line terminator code points `parseInt` skips. */
  predicate IsWhiteSpace(c: char) {
    || c == '\t' || c == '\n' || c == '\U{000B}' || c == '\U{000C}' || c == '\r' || c == ' '
    || c == '\U{00A0}' || c == '\U{1680}' || ('\U{2000}' <= c <= '\U{200A}')
    || c == '\U{2028}' || c == '\U{2029}' || c == '\U{202F}' || c == '\U{205F}' || c == '\U{3000}'
    || c == '\U{FEFF}'
  }

  /** The value of a digit in radices up to 36 ('0'..'9', then 'a'..'z' in either case);
      36 for a character that is a digit in no radix. */
  function DigitValue(c: char): nat {
    if '0' <= c <= '9' then c as nat - '0' as nat
    else if 'a' <= c <= 'z' then c as nat - 'a' as nat + 10
    else if 'A' <= c <= 'Z' then c as nat - 'A' as nat + 10
    else 36
  }

  /** The input with its leading white space removed. */
  function TrimStart(s: string): (r: string)
    ensures |r| <= |s|
    ensures r == [] || !IsWhiteSpace(r[0])
  {
    if |s| > 0 && IsWhiteSpace(s[0]) then TrimStart(s[1..]) else s
  }

  /** The length of the longest prefix of `s` made of digits of `radix`. */
  function DigitRun(s: string, radix: int): (n: nat)
    ensures n <= |s|
  {
    if |s| == 0 || DigitValue(s[0]) >= radix then 0 else 1 + DigitRun(s[1..], radix)
  }

  /** The number a digit string denotes in `radix`, most significant digit first. */
  function DigitsValue(s: string, radix: int): int {
    if s == [] then 0 else DigitsValue(s[..|s| - 1], radix) * radix + DigitValue(s[|s| - 1])
  }

  /**
   * `parseInt(input, radix)`: skip leading white space, take an optional sign, and read the
   * longest run of digits; NaN (`None`) when there is no digit. A radix of 0 means 10, except
   * that a "0x"/"0X" prefix then switches to 16; radix 16 also accepts that prefix; a radix
   * outside 2..36 gives NaN. Parsing stops silently at the first non-digit.
   */
  function ParseInt(input: string, radix: int): Option<int> {
    if radix != 0 && (radix < 2 || radix > 36) then None
    else ParseSigned(TrimStart(input), radix)
  }

  /** The sign step of `parseInt`, on input whose white space has been skipped. */
  function ParseSigned(s: string, radix: int): Option<int> {
    if |s| > 0 && (s[0] == '-' || s[0] == '+') then
      match ParseUnsigned(s[1..], radix)
      case None => None
      case Some(v) => Some(if s[0] == '-' then -v else v)
    else ParseUnsigned(s, radix)
  }

  /** The prefix and digit steps of `parseInt`, after the sign. */
  function ParseUnsigned(s: string, radix: int): Option<int> {
    var hex := (radix == 0 || radix == 16) && HasHexPrefix(s);
    var digits := if hex then s[2..] else s;
    var base := if hex then 16 else if radix == 0 then 10 else radix;
    ReadDigits(digits, base)
  }

  /** The longest run of digits of `base` at the start of `s`, as a number; NaN when there is none. */
  function ReadDigits(s: string, base: int): Option<int> {
    var n := DigitRun(s, base);
    if n == 0 then None else Some(DigitsValue(s[..n], base))
  }

  /** Digits followed by a non-digit (or by nothing) read as exactly their value. */
  lemma ReadDigitsStopsAt(d: string, rest: string, base: int)
    requires d != [] && forall i :: 0 <= i < |d| ==> DigitValue(d[i]) < base
    requires rest == [] || DigitValue(rest[0]) >= base
    ensures ReadDigits(d + rest, base) == Some(DigitsValue(d, base))
  {
    DigitRunStopsAt(d, rest, base);
    assert (d + rest)[..|d|] == d;
  }

  /** `s` starts with "0x" or "0X". */
  predicate HasHexPrefix(s: string) {
    |s| >= 2 && s[0] == '0' && (s[1] == 'x' || s[1] == 'X')
  }

  /** `parseInt(req.query.x as string, radix)`: an absent parameter is `undefined`, which
      `parseInt` reads as the string "undefined". */
  function ParseParam(param: Option<string>, radix: int): Option<int> {
    match param
    case None => ParseInt("undefined", radix)
    case Some(s) => ParseInt(s, radix)
  }

  /** `parsed || fallback`: NaN and 0 are both falsy, so both give the fallback. */
  function OrDefault(parsed: Option<int>, fallback: int): (r: int)
    ensures r == fallback || parsed == Some(r)
    ensures parsed.Some? && parsed.value != 0 ==> r == parsed.value
    ensures fallback != 0 ==> r != 0
  {
    if parsed.Some? && parsed.value != 0 then parsed.value else fallback
  }

  /** The decimal digit character for 0..9. */
  function DigitChar(d: int): (c: char)
    requires 0 <= d < 10
    ensures DigitValue(c) == d
  {
    (48 + d) as char
  }

  /** `String(n)` for a natural number: its decimal digits without leading zeros. */
  function NatString(n: nat): (s: string)
    ensures |s| >= 1
    ensures '0' <= s[0] <= '9'
    ensures s[0] == '0' ==> n == 0
  {
    if n < 10 then [DigitChar(n)] else NatString(n / 10) + [DigitChar(n % 10)]
  }

  lemma {:induction false} NatStringDigits(n: nat)
    ensures forall i :: 0 <= i < |NatString(n)| ==> DigitValue(NatString(n)[i]) < 10
  {
    if n >= 10 {
      NatStringDigits(n / 10);
    }
  }

  /** `String(n)` for an integer. */
  function IntString(n: int): string {
    if n < 0 then "-" + NatString(-n) else NatString(n)
  }

  lemma {:induction false} NatStringValue(n: nat)
    ensures DigitsValue(NatString(n), 10) == n
  {
    if n >= 10 {
      var s := NatString(n);
      assert s[..|s| - 1] == NatString(n / 10);
      NatStringValue(n / 10);
    }
  }

  /** A run of digits followed by a non-digit (or by nothing) is read up to that point. */
  lemma {:induction false} DigitRunStopsAt(d: string, rest: string, radix: int)
    requires forall i :: 0 <= i < |d| ==> DigitValue(d[i]) < radix
    requires rest == [] || DigitValue(rest[0]) >= radix
    ensures DigitRun(d + rest, radix) == |d|
  {
    if d != [] {
      assert (d + rest)[1..] == d[1..] + rest;
      DigitRunStopsAt(d[1..], rest, radix);
    }
  }

  lemma {:induction false} TrimStartSkipsWhiteSpace(ws: string, s: string)
    requires forall i :: 0 <= i < |ws| ==> IsWhiteSpace(ws[i])
    ensures TrimStart(ws + s) == TrimStart(s)
  {
    if ws == [] {
      assert ws + s == s;
    } else {
      assert (ws + s)[0] == ws[0];
      assert (ws + s)[1..] == ws[1..] + s;
      TrimStartSkipsWhiteSpace(ws[1..], s);
    }
  }

  /** Text that does not start with white space is left as it is. */
  lemma TrimStartKeeps(s: string)
    requires s == [] || !IsWhiteSpace(s[0])
    ensures TrimStart(s) == s
  {
  }

  /** Leading white space never changes what `parseInt` reads. */
  lemma ParseIntSkipsWhiteSpace(ws: string, s: string, radix: int)
    requires forall i :: 0 <= i < |ws| ==> IsWhiteSpace(ws[i])
    ensures ParseInt(ws + s, radix) == ParseInt(s, radix)
  {
    TrimStartSkipsWhiteSpace(ws, s);
  }

  /** Round trip with radix 10: `parseInt(String(n) + rest, 10) == n` whenever `rest` does not
      continue the digits ("12x" gives 12, "-2" gives -2). */
  lemma ParseIntDecimal(n: int, rest: string)
    requires rest == [] || DigitValue(rest[0]) >= 10
    ensures ParseInt(IntString(n) + rest, 10) == Some(n)
  {
    var m: nat := if n < 0 then -n else n;
    var u := NatString(m) + rest;
    var text := (if n < 0 then "-" else "") + u;
    assert IntString(n) + rest == text by {
      SignedText(n, rest);
    }
    assert ParseInt(text, 10) == Some(n) by {
      ParseUnsignedDecimal(m, rest, 10);
      ParseIntOfSigned(n < 0, u, 10, m);
    }
  }

  /** `String(n) + rest` is the digits of |n| and `rest`, after a '-' when n is negative. */
  lemma SignedText(n: int, rest: string)
    ensures var m := if n < 0 then -n else n;
            IntString(n) + rest == (if n < 0 then "-" else "") + (NatString(m) + rest)
  {
  }

  /** `parseInt` of a '-' (or nothing) before text that starts with neither white space nor a
      sign is the unsigned reading, negated after a '-'. */
  lemma ParseIntOfSigned(negative: bool, u: string, radix: int, v: int)
    requires 2 <= radix <= 36 || radix == 0
    requires u != [] && u[0] != '-' && u[0] != '+' && !IsWhiteSpace(u[0])
    requires ParseUnsigned(u, radix) == Some(v)
    ensures ParseInt((if negative then "-" else "") + u, radix) == Some(if negative then -v else v)
  {
    var s := (if negative then "-" else "") + u;
    assert s[0] == if negative then '-' else u[0];
    TrimStartKeeps(s);
    if negative {
      assert s[1..] == u;
    } else {
      assert s == u;
    }
  }

  /** Decimal digits followed by a non-digit read as their value in radix 10, and also with no
      radix when they are not a "0x" prefix. */
  lemma ParseUnsignedDecimal(m: nat, rest: string, radix: int)
    requires radix == 10 || radix == NoRadix
    requires rest == [] || DigitValue(rest[0]) >= 10
    requires radix == NoRadix && m == 0 && rest != [] ==> rest[0] != 'x' && rest[0] != 'X'
    ensures ParseUnsigned(NatString(m) + rest, radix) == Some(m)
    ensures var u := NatString(m) + rest; u != [] && '0' <= u[0] <= '9'
  {
    var u := NatString(m) + rest;
    assert u[0] == NatString(m)[0];
    if radix == NoRadix {
      if m == 0 {
        assert NatString(m) == "0";
        assert rest != [] ==> u[1] == rest[0];
      }
      assert !HasHexPrefix(u);
    }
    NatStringDigits(m);
    ReadDigitsStopsAt(NatString(m), rest, 10);
    NatStringValue(m);
  }

  /** Round trip without a radix: `parseInt(String(n) + rest) == n` as long as `rest` neither
      continues the digits nor turns a lone "0" into a "0x" prefix. */
  lemma ParseIntWithoutRadix(n: int, rest: string)
    requires rest == [] || DigitValue(rest[0]) >= 10
    requires n == 0 && rest != [] ==> rest[0] != 'x' && rest[0] != 'X'
    ensures ParseInt(IntString(n) + rest, NoRadix) == Some(n)
  {
    var m: nat := if n < 0 then -n else n;
    var u := NatString(m) + rest;
    ParseUnsignedDecimal(m, rest, NoRadix);
    if n < 0 {
      assert IntString(n) + rest == "-" + u;
      ParseIntOfSigned(true, u, NoRadix, m);
    } else {
      assert IntString(n) + rest == u;
      ParseIntOfSigned(false, u, NoRadix, m);
    }
  }

  /** Without a radix a "0x" prefix reads hexadecimal digits; with radix 10 the same text reads
      as 0, because parsing stops at the 'x'. */
  lemma {:induction false} ParseIntHexPrefix(d: string, rest: string)
    requires d != [] && forall i :: 0 <= i < |d| ==> DigitValue(d[i]) < 16
    requires rest == [] || DigitValue(rest[0]) >= 16
    ensures ParseInt("0x" + d + rest, NoRadix) == Some(DigitsValue(d, 16))
    ensures ParseInt("0x" + d + rest, 10) == Some(0)
  {
    var s := "0x" + d + rest;
    assert s[0] == '0' && s[1] == 'x';
    TrimStartKeeps(s);
    assert ParseInt(s, NoRadix) == ParseUnsigned(s, NoRadix);
    assert ParseInt(s, 10) == ParseUnsigned(s, 10);
    assert s[2..] == d + rest;
    HexDigitsAfterPrefix(s, d, rest);
    ZeroBeforeX(s);
  }

  /** A "0x" prefix followed by hexadecimal digits and a non-digit reads as those digits. */
  lemma HexDigitsAfterPrefix(s: string, d: string, rest: string)
    requires HasHexPrefix(s) && s[2..] == d + rest
    requires d != [] && forall i :: 0 <= i < |d| ==> DigitValue(d[i]) < 16
    requires rest == [] || DigitValue(rest[0]) >= 16
    ensures ParseUnsigned(s, NoRadix) == Some(DigitsValue(d, 16))
  {
    ReadDigitsStopsAt(d, rest, 16);
    HexPrefixReads(s, DigitsValue(d, 16));
  }

  /** After a "0x" prefix, the radix-0 reading is the hexadecimal reading of the rest. */
  lemma HexPrefixReads(s: string, v: int)
    requires HasHexPrefix(s) && ReadDigits(s[2..], 16) == Some(v)
    ensures ParseUnsigned(s, NoRadix) == Some(v)
  {
  }

  lemma ZeroBeforeX(s: string)
    requires |s| >= 2 && s[0] == '0' && s[1] == 'x'
    ensures ParseUnsigned(s, 10) == Some(0)
  {
    assert s[1..][0] == 'x';
    assert DigitRun(s[1..], 10) == 0;
    assert DigitRun(s, 10) == 1;
    assert s[..1] == ['0'];
    assert DigitsValue(['0'], 10) == 0 by {
      assert ['0'][..0] == [];
    }
  }

  /** An absent query parameter parses to NaN, with or without radix 10. */
  lemma AbsentParamIsNaN()
    ensures ParseParam(None, 10) == None
    ensures ParseParam(None, NoRadix) == None
  {
    assert TrimStart("undefined") == "undefined";
  }

  /** Worked examples of `parseInt(x) || fallback` as the controllers use it. */
  lemma ParseDecimalExamples()
    ensures OrDefault(ParseInt("abc", 10), 10) == 10
    ensures OrDefault(ParseInt("0", 10), 10) == 10
    ensures OrDefault(ParseInt("12x", 10), 10) == 12
  {
    assert ParseInt("abc", 10) == None by {
      assert TrimStart("abc") == "abc";
    }
    assert ParseInt("0", 10) == Some(0) by {
      ParseIntDecimal(0, "");
      assert IntString(0) + "" == "0";
    }
    assert ParseInt("12x", 10) == Some(12) by {
      ParseIntDecimal(12, "x");
      assert IntString(12) + "x" == "12x";
    }
  }

  /** "0x10" reads as 16 without a radix and as 0 (falling back to the default) with radix 10. */
  lemma ParseHexExamples()
    ensures OrDefault(ParseInt("0x10", NoRadix), 10) == 16
    ensures OrDefault(ParseInt("0x10", 10), 10) == 10
  {
    assert "0x" + "10" + "" == "0x10";
    ParseIntHexPrefix("10", "");
    assert "10"[..1] == "1";
    assert "1"[..0] == [];
  }

  /** A leading minus sign is kept: "-2" reads as -2. */
  lemma ParseSignExample()
    ensures OrDefault(ParseInt("-2", NoRadix), 1) == -2
  {
    ParseIntWithoutRadix(-2, "");
    assert IntString(-2) + "" == "-2";
  }

  /** `Math.ceil(a / b)` for a nonzero integer divisor. */
  function CeilDiv(a: int, b: int): (q: int)
    requires b != 0
    ensures b > 0 ==> (q - 1) * b < a <= q * b
    ensures b < 0 ==> q * b <= a < (q - 1) * b
  {
    if b > 0 then
      var f := (-a) / b;
      assert -a == f * b + (-a) % b;
      -f
    else
      var f := a / (-b);
      assert a == f * (-b) + a % (-b);
      -f
  }

  /** Page counts: for a count `a` and a positive page size, the number of pages is
      nonnegative and is 0 exactly when the count is 0. */
  lemma CeilDivOfCount(a: int, b: int)
    requires a >= 0 && b >= 1
    ensures CeilDiv(a, b) >= 0
    ensures CeilDiv(a, b) == 0 <==> a == 0
  {
    var q := CeilDiv(a, b);
    assert a <= q * b;
    if q >= 1 {
      assert (q - 1) * b >= 0;
    }
  }
}
