/**
 * The two ECMAScript number conversions that the send view relies on:
 * the global `parseInt(string)` called without a radix (section 19.2.5 of
 * ECMA-262, 2022 edition and later) and `Number.prototype.toString()` for an
 * integral Number (Number::toString in section 6.1.6.1, radix 10).
 *
 * A Number result is modelled as an unbounded `int`; `NaN` is `None`, and
 * `-0` is folded into `0` because every use in the view (`||`, `===`, `>`)
 * treats the two alike.
 */
module JsNumbers {
  import opened Wrappers

  /** The code points that StrWhiteSpaceChar admits: WhiteSpace (section 12.2,
      including every Zs space separator) and LineTerminator (section 12.3). */
  predicate IsStrWhiteSpace(c: char) {
    c == '\t' || c == '\U{000B}' || c == '\U{000C}' || c == ' ' || c == '\U{00A0}' || c == '\U{FEFF}'
    || c == '\U{1680}' || ('\U{2000}' <= c <= '\U{200A}') || c == '\U{202F}' || c == '\U{205F}' || c == '\U{3000}'
    || c == '\n' || c == '\r' || c == '\U{2028}' || c == '\U{2029}'
  }

  /** TrimString(s, start): drop the white space at the start of `s`. */
  function TrimStart(s: string): string {
    if |s| > 0 && IsStrWhiteSpace(s[0]) then TrimStart(s[1..]) else s
  }

  /** The digit value of `c` when read in any radix up to 36 (`0`-`9`, then
      `a`-`z` and `A`-`Z` for 10 to 35); 36 for a character that is no digit. */
  function DigitValue(c: char): nat {
    if '0' <= c <= '9' then c as int - '0' as int
    else if 'a' <= c <= 'z' then c as int - 'a' as int + 10
    else if 'A' <= c <= 'Z' then c as int - 'A' as int + 10
    else 36
  }

  predicate IsRadixDigit(c: char, radix: nat) {
    DigitValue(c) < radix
  }

  predicate IsDecimalString(s: string) {
    forall i :: 0 <= i < |s| ==> '0' <= s[i] <= '9'
  }

  /** The length of the longest prefix of `s` made of radix-`radix` digits. */
  function DigitPrefixLength(s: string, radix: nat): (n: nat)
    ensures n <= |s|
  {
    if |s| > 0 && IsRadixDigit(s[0], radix) then 1 + DigitPrefixLength(s[1..], radix) else 0
  }

  /** The mathematical value of the digit string `z` read in radix `radix`. */
  function DigitsValue(z: string, radix: nat): nat {
    if z == [] then 0 else DigitsValue(z[..|z| - 1], radix) * radix + DigitValue(z[|z| - 1])
  }

  /**
   * `parseInt(s)` with the radix left undefined: skip leading white space,
   * take one optional sign, then read a magnitude. No digit at all gives
   * `NaN` (None).
   */
  function ParseInt(s: string): Option<int> {
    ParseSigned(TrimStart(s))
  }

  /** A leading `-` negates the magnitude that follows; a leading `+` is dropped. */
  function ParseSigned(t: string): Option<int> {
    if |t| > 0 && t[0] == '-' then Negated(ParseMagnitude(t[1..]))
    else if |t| > 0 && t[0] == '+' then ParseMagnitude(t[1..])
    else ParseMagnitude(t)
  }

  predicate HasHexPrefix(u: string) {
    |u| >= 2 && u[0] == '0' && (u[1] == 'x' || u[1] == 'X')
  }

  /** After a `0x` or `0X` prefix the digits are read in radix 16, otherwise in radix 10. */
  function ParseMagnitude(u: string): Option<int> {
    if HasHexPrefix(u) then ReadDigits(u[2..], 16) else ReadDigits(u, 10)
  }

  /** The value of the longest radix-`radix` digit prefix of `body`; None when it is empty. */
  function ReadDigits(body: string, radix: nat): (r: Option<int>)
    ensures r.Some? ==> r.value >= 0
  {
    var n := DigitPrefixLength(body, radix);
    if n == 0 then None else Some(DigitsValue(body[..n], radix))
  }

  function Negated(r: Option<int>): Option<int> {
    match r
    case None => None
    case Some(v) => Some(-v)
  }

  function DigitChar(d: nat): (c: char)
    requires d < 10
    ensures '0' <= c <= '9' && DigitValue(c) == d
  {
    ('0' as int + d) as char
  }

  /** The decimal numeral of `n`, most significant digit first, without leading zeros. */
  function NatToDecimal(n: nat): (r: string)
    ensures |r| > 0 && IsDecimalString(r)
    ensures r[0] == '0' ==> n == 0
  {
    if n < 10 then [DigitChar(n)] else NatToDecimal(n / 10) + [DigitChar(n % 10)]
  }

  /** A Number that is an exact integer (between Number.MIN_SAFE_INTEGER and
      Number.MAX_SAFE_INTEGER); its magnitude is far below 10^21, so
      Number::toString writes it without an exponent. */
  type SafeInteger = n: int | -0x1F_FFFF_FFFF_FFFF <= n <= 0x1F_FFFF_FFFF_FFFF

  /** Number::toString(n, 10) for a safe integer: a `-` for negative values, then the digits. */
  function IntToString(n: SafeInteger): (r: string)
    ensures |r| > 0
  {
    if n < 0 then "-" + NatToDecimal(-n) else NatToDecimal(n)
  }

  // ----- Lemmas -----

  /** TrimStart removes exactly the longest run of white space at the start:
      the result is a suffix, everything removed is white space, and the
      result does not begin with white space. */
  lemma {:induction false} TrimStartRemovesLeadingWhiteSpace(s: string)
    ensures |TrimStart(s)| <= |s| && TrimStart(s) == s[|s| - |TrimStart(s)|..]
    ensures forall i :: 0 <= i < |s| - |TrimStart(s)| ==> IsStrWhiteSpace(s[i])
    ensures TrimStart(s) == [] || !IsStrWhiteSpace(TrimStart(s)[0])
  {
    if |s| > 0 && IsStrWhiteSpace(s[0]) {
      TrimStartRemovesLeadingWhiteSpace(s[1..]);
    }
  }

  /** DigitPrefixLength finds the longest digit run: every character before it
      is a digit of the radix, and the one at it (if any) is not. */
  lemma {:induction false} DigitPrefixIsLongest(s: string, radix: nat)
    ensures forall i :: 0 <= i < DigitPrefixLength(s, radix) ==> IsRadixDigit(s[i], radix)
    ensures DigitPrefixLength(s, radix) == |s| || !IsRadixDigit(s[DigitPrefixLength(s, radix)], radix)
  {
    if |s| > 0 && IsRadixDigit(s[0], radix) {
      DigitPrefixIsLongest(s[1..], radix);
    }
  }

  lemma {:induction false} DecimalValueOfNumeral(n: nat)
    ensures DigitsValue(NatToDecimal(n), 10) == n
  {
    if n >= 10 {
      var p := NatToDecimal(n / 10);
      var r := p + [DigitChar(n % 10)];
      assert r[..|r| - 1] == p;
      DecimalValueOfNumeral(n / 10);
    }
  }

  /** Leading white space never changes what parseInt reads. */
  lemma {:induction false} TrimStartSkipsWhiteSpace(w: string, s: string)
    requires forall i :: 0 <= i < |w| ==> IsStrWhiteSpace(w[i])
    ensures TrimStart(w + s) == TrimStart(s)
  {
    if w != [] {
      var ws := w + s;
      assert ws[0] == w[0];
      assert TrimStart(ws) == TrimStart(ws[1..]);
      assert ws[1..] == w[1..] + s;
      TrimStartSkipsWhiteSpace(w[1..], s);
    } else {
      assert w + s == s;
    }
  }

  lemma ParseIntIgnoresLeadingWhiteSpace(w: string, s: string)
    requires forall i :: 0 <= i < |w| ==> IsStrWhiteSpace(w[i])
    ensures ParseInt(w + s) == ParseInt(s)
  {
    TrimStartSkipsWhiteSpace(w, s);
  }

  /** A string that already starts with something other than white space is not trimmed. */
  lemma TrimStartKeeps(s: string)
    requires s == [] || !IsStrWhiteSpace(s[0])
    ensures TrimStart(s) == s
  {
  }

  /** The digit run ends exactly where the decimal digits `d` end. */
  lemma {:induction false} DigitPrefixOfDecimal(d: string, rest: string)
    requires IsDecimalString(d)
    requires rest == [] || !IsRadixDigit(rest[0], 10)
    ensures DigitPrefixLength(d + rest, 10) == |d|
  {
    if d == [] {
      assert d + rest == rest;
    } else {
      var s := d + rest;
      assert s[0] == d[0];
      assert s[1..] == d[1..] + rest;
      DigitPrefixOfDecimal(d[1..], rest);
    }
  }

  /** parseInt reads a run of decimal digits and stops at the first character that
      is not one, unless the run is a lone `0` followed by `x` or `X` (the hex prefix). */
  lemma ParseIntStopsAtNonDigit(d: string, rest: string)
    requires d != [] && IsDecimalString(d)
    requires rest == [] || !IsRadixDigit(rest[0], 10)
    requires !(d == "0" && rest != [] && (rest[0] == 'x' || rest[0] == 'X'))
    ensures ParseInt(d + rest) == Some(DigitsValue(d, 10))
  {
    var s := d + rest;
    TrimStartKeeps(s);
    assert s[0] == d[0];
    if |s| >= 2 {
      assert s[1] == if |d| >= 2 then d[1] else rest[0];
    }
    DigitPrefixOfDecimal(d, rest);
    assert s[..|d|] == d;
  }

  /** A minus sign negates what follows it, and a plus sign changes nothing. */
  lemma ParseIntSign(s: string)
    requires s == [] || (!IsStrWhiteSpace(s[0]) && s[0] != '-' && s[0] != '+')
    ensures ParseInt("-" + s) == Negated(ParseInt(s))
    ensures ParseInt("+" + s) == ParseInt(s)
  {
    assert ParseInt(s) == ParseMagnitude(s) by {
      TrimStartKeeps(s);
    }
    var minus := "-" + s;
    assert ParseInt(minus) == Negated(ParseMagnitude(s)) by {
      TrimStartKeeps(minus);
      assert minus[0] == '-' && minus[1..] == s;
    }
    var plus := "+" + s;
    assert ParseInt(plus) == ParseMagnitude(s) by {
      TrimStartKeeps(plus);
      assert plus[0] == '+' && plus[1..] == s;
    }
  }

  /** Number::toString and parseInt are inverse on safe integers: the stored decimal
      form of a number reads back as the same number. */
  lemma ParseIntOfIntToString(n: SafeInteger)
    ensures ParseInt(IntToString(n)) == Some(n)
  {
    var m: nat := if n < 0 then -n else n;
    var d := NatToDecimal(m);
    DecimalValueOfNumeral(m);
    ParseIntStopsAtNonDigit(d, []);
    assert d + [] == d;
    if n < 0 {
      ParseIntSign(d);
    }
  }

  /** The edge cases the send view meets: empty, blank and non-numeric text is
      NaN, trailing garbage is ignored, and `0x` switches to hexadecimal. */
  lemma ParseIntOfEmptyOrText()
    ensures ParseInt("") == None
    ensures ParseInt("   ") == None
    ensures ParseInt("abc") == None
    ensures ParseInt("0x") == None
  {
    assert ParseSigned("") == None;
    ParseIntIgnoresLeadingWhiteSpace("   ", "");
    assert "   " + "" == "   ";
    TrimStartKeeps("abc");
    assert DigitPrefixLength("abc", 10) == 0;
    TrimStartKeeps("0x");
    assert HasHexPrefix("0x");
  }

  lemma ParseIntOfNumerals()
    ensures ParseInt("0") == Some(0)
    ensures ParseInt("-5") == Some(-5)
  {
    assert ParseInt("0") == Some(0) by {
      TrimStartKeeps("0");
      assert DigitsValue("0", 10) == 0 by { assert "0"[..0] == []; }
      assert DigitPrefixLength("0", 10) == 1 by { assert "0"[1..] == []; }
      assert "0"[..1] == "0";
    }
    assert ParseInt("-5") == Some(-5) by {
      TrimStartKeeps("-5");
      assert "-5"[1..] == "5";
      assert DigitsValue("5", 10) == 5 by { assert "5"[..0] == []; }
      assert DigitPrefixLength("5", 10) == 1 by { assert "5"[1..] == []; }
      assert "5"[..1] == "5";
    }
  }

  lemma ParseIntOfPaddedNumeral()
    ensures ParseInt(" 42px") == Some(42)
  {
    assert ParseInt("42px") == Some(42) by {
      TrimStartKeeps("42px");
      assert DigitPrefixLength("42px", 10) == 2 by {
        assert "42px"[1..] == "2px" && "2px"[1..] == "px";
      }
      assert DigitsValue("42", 10) == 42 by {
        assert "42"[..1] == "4" && "4"[..0] == [];
      }
      assert "42px"[..2] == "42";
    }
    assert TrimStart(" 42px") == TrimStart("42px") by {
      assert " 42px"[1..] == "42px";
      assert IsStrWhiteSpace(" 42px"[0]);
    }
  }

  lemma ParseIntOfHexNumeral()
    ensures ParseInt("0x1A") == Some(26)
  {
    assert ParseInt("0x1A") == Some(26) by {
      TrimStartKeeps("0x1A");
      assert HasHexPrefix("0x1A");
      assert "0x1A"[2..] == "1A";
      assert DigitPrefixLength("1A", 16) == 2 by {
        assert "1A"[1..] == "A" && "A"[1..] == [];
      }
      assert DigitsValue("1A", 16) == 26 by {
        assert "1A"[..1] == "1" && "1"[..0] == [];
      }
      assert "1A"[..2] == "1A";
    }
  }
}
