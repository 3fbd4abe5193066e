/** JavaScript's `parseInt` (with no radix argument) and the decimal
    rendering `Number.prototype.toString` gives an integer. Numbers are
    unbounded integers; `NaN` is `None`. */
module Numbers {
  import opened Wrappers
  import opened Text

  predicate IsDecimalDigit(c: char) {
    '0' <= c <= '9'
  }

  predicate IsHexDigit(c: char) {
    IsDecimalDigit(c) || 'a' <= c <= 'f' || 'A' <= c <= 'F'
  }

  /** `c` is a digit of the given radix; `parseInt` only ever uses 10 or 16. */
  predicate IsDigitIn(c: char, hex: bool) {
    if hex then IsHexDigit(c) else IsDecimalDigit(c)
  }

  predicate AllDigitsIn(s: string, hex: bool) {
    forall i :: 0 <= i < |s| ==> IsDigitIn(s[i], hex)
  }

  function DigitValue(c: char): (v: nat)
    requires IsHexDigit(c)
    ensures v < 16
    ensures IsDecimalDigit(c) ==> v < 10
  {
    if IsDecimalDigit(c) then c as int - '0' as int
    else if 'a' <= c <= 'f' then c as int - 'a' as int + 10
    else c as int - 'A' as int + 10
  }

  /** The value of a digit string, most significant digit first. */
  function ValueOf(digits: string, hex: bool): nat
    requires AllDigitsIn(digits, hex)
    decreases |digits|
  {
    if digits == [] then 0
    else
      var init := digits[..|digits| - 1];
      assert AllDigitsIn(init, hex) by {
        forall i | 0 <= i < |init| ensures IsDigitIn(init[i], hex) {
          assert init[i] == digits[i];
        }
      }
      ValueOf(init, hex) * (if hex then 16 else 10) + DigitValue(digits[|digits| - 1])
  }

  /** The longest prefix of `s` made of digits of the radix. */
  function DigitPrefix(s: string, hex: bool): (r: string)
    ensures |r| <= |s| && r == s[..|r|]
    ensures AllDigitsIn(r, hex)
    ensures |r| == |s| || !IsDigitIn(s[|r|], hex)
  {
    if s == [] || !IsDigitIn(s[0], hex) then [] else [s[0]] + DigitPrefix(s[1..], hex)
  }

  /** `parseInt(s)`: skip leading whitespace, take an optional sign, switch
      to radix 16 after a `0x`/`0X` prefix, and read the longest run of
      digits; no digits at all gives `NaN`. */
  function ParseInt(s: string): (r: Option<int>)
    ensures r.Some? ==> exists i :: 0 <= i < |s| && IsDecimalDigit(s[i])
  {
    var t := TrimStart(s);
    var r := ParseSigned(t);
    assert r.Some? ==> exists i :: 0 <= i < |s| && IsDecimalDigit(s[i]) by {
      if r.Some? {
        var i := SignedDigit(t);
        assert s[|s| - |t| + i] == t[i];
      }
    }
    r
  }

  /** `parseInt` after the leading whitespace: an optional sign, then the
      magnitude. */
  function ParseSigned(t: string): (r: Option<int>)
  {
    if t != [] && t[0] == '-' then
      var magnitude := ParseUnsigned(t[1..]);
      if magnitude.None? then None else Some(-(magnitude.value as int))
    else if t != [] && t[0] == '+' then ParseUnsigned(t[1..])
    else ParseUnsigned(t)
  }

  /** Where the decimal digit a successful signed parse starts from sits:
      the first character, or the one after the sign (a hexadecimal prefix
      starts with `0`). */
  function SignedDigit(t: string): (i: nat)
    requires ParseSigned(t).Some?
    ensures i < |t| && IsDecimalDigit(t[i])
  {
    if t[0] == '-' || t[0] == '+' then
      assert ParseUnsigned(t[1..]).Some?;
      assert IsDecimalDigit(t[1]) by { UnsignedStartsWithDigit(t[1..]); }
      1
    else
      UnsignedStartsWithDigit(t);
      0
  }

  lemma {:induction false} UnsignedStartsWithDigit(u: string)
    requires ParseUnsigned(u).Some?
    ensures u != [] && IsDecimalDigit(u[0])
  {
  }

  predicate HasHexPrefix(u: string) {
    |u| >= 2 && u[0] == '0' && (u[1] == 'x' || u[1] == 'X')
  }

  /** The magnitude: hexadecimal after `0x`/`0X`, decimal otherwise. */
  function ParseUnsigned(u: string): (r: Option<nat>)
  {
    if HasHexPrefix(u) then ReadDigits(u[2..], true) else ReadDigits(u, false)
  }

  /** The value of the longest run of digits at the start of `body`, if
      there is one. */
  function ReadDigits(body: string, hex: bool): (r: Option<nat>)
    ensures r.Some? <==> body != [] && IsDigitIn(body[0], hex)
  {
    var digits := DigitPrefix(body, hex);
    if digits == [] then None else Some(ValueOf(digits, hex))
  }

  function DigitChar(d: nat): (c: char)
    requires d < 10
    ensures IsDecimalDigit(c) && DigitValue(c) == d
  {
    ('0' as int + d) as char
  }

  /** Decimal rendering of a non-negative integer, without leading zeros. */
  function NatToString(n: nat): (r: string)
    ensures r != [] && AllDigitsIn(r, false)
    ensures ValueOf(r, false) == n
    ensures r[0] == '0' ==> n == 0 && r == "0"
  {
    if n < 10 then [DigitChar(n)]
    else
      var r := NatToString(n / 10) + [DigitChar(n % 10)];
      assert r[..|r| - 1] == NatToString(n / 10);
      r
  }

  /** `Number.prototype.toString` of an integer value. */
  function IntToString(i: int): string {
    if i < 0 then "-" + NatToString(-i) else NatToString(i)
  }

  /** `parseInt` of a plain digit string reads all of it in base 10. */
  lemma {:induction false} ParseIntOfDigits(d: string)
    requires d != [] && AllDigitsIn(d, false)
    ensures ParseInt(d) == Some(ValueOf(d, false))
  {
    TrimStartOfNonSpace(d);
    assert ParseSigned(d) == ParseUnsigned(d);
    ParseUnsignedOfDigits(d);
  }

  lemma {:induction false} ParseUnsignedOfDigits(d: string)
    requires d != [] && AllDigitsIn(d, false)
    ensures ParseUnsigned(d) == Some(ValueOf(d, false))
  {
    assert !HasHexPrefix(d) by {
      if |d| >= 2 { assert IsDecimalDigit(d[1]); }
    }
    DigitPrefixOfDigits(d, false);
  }

  lemma {:induction false} DigitPrefixOfDigits(d: string, hex: bool)
    requires AllDigitsIn(d, hex)
    ensures DigitPrefix(d, hex) == d
    decreases |d|
  {
    if d != [] {
      assert IsDigitIn(d[0], hex);
      assert AllDigitsIn(d[1..], hex) by {
        forall i | 0 <= i < |d| - 1 ensures IsDigitIn(d[1..][i], hex) {
          assert d[1..][i] == d[i + 1];
        }
      }
      DigitPrefixOfDigits(d[1..], hex);
    }
  }

  /** Rendering an integer and parsing it back gives the integer again. */
  lemma {:induction false} ParseIntRoundTrip(i: int)
    ensures ParseInt(IntToString(i)) == Some(i)
  {
    if i >= 0 {
      ParseIntOfDigits(NatToString(i));
    } else {
      var digits := NatToString(-i);
      var s := "-" + digits;
      TrimStartOfNonSpace(s);
      assert s[0] == '-' && s[1..] == digits;
      ParseUnsignedOfDigits(digits);
      assert ParseSigned(s) == Some(-(ValueOf(digits, false) as int));
    }
  }

  /** `parseInt` stops at the first character that is not a digit, so
      trailing text is ignored ("5abc" reads as 5), except that "0"
      followed by `x` or `X` switches to hexadecimal. */
  lemma {:induction false} ParseIntIgnoresSuffix(n: nat, suffix: string)
    requires suffix == [] || !IsDecimalDigit(suffix[0])
    requires n == 0 ==> suffix == [] || (suffix[0] != 'x' && suffix[0] != 'X')
    ensures ParseInt(NatToString(n) + suffix) == Some(n)
  {
    var d := NatToString(n);
    var s := d + suffix;
    assert s[0] == d[0];
    TrimStartOfNonSpace(s);
    assert ParseSigned(s) == ParseUnsigned(s);
    assert !HasHexPrefix(s) by {
      if |s| >= 2 && s[0] == '0' {
        assert n == 0 && |d| == 1 && s[1] == suffix[0];
      }
    }
    DigitPrefixAppend(d, suffix, false);
  }

  /** The digit run ends where the digits of the radix end. */
  lemma {:induction false} DigitPrefixAppend(d: string, suffix: string, hex: bool)
    requires AllDigitsIn(d, hex)
    requires suffix == [] || !IsDigitIn(suffix[0], hex)
    ensures DigitPrefix(d + suffix, hex) == d
    decreases |d|
  {
    if d == [] {
      assert d + suffix == suffix;
    } else {
      assert (d + suffix)[0] == d[0];
      assert (d + suffix)[1..] == d[1..] + suffix;
      assert AllDigitsIn(d[1..], hex) by {
        forall i | 0 <= i < |d| - 1 ensures IsDigitIn(d[1..][i], hex) {
          assert d[1..][i] == d[i + 1];
        }
      }
      DigitPrefixAppend(d[1..], suffix, hex);
    }
  }

  /** Text without a single decimal digit parses to `NaN`: a hexadecimal
      prefix needs its leading `0`. */
  lemma {:induction false} ParseIntNeedsDigit(s: string)
    requires forall i :: 0 <= i < |s| ==> !IsDecimalDigit(s[i])
    ensures ParseInt(s) == None
  {
    var t := TrimStart(s);
    assert forall i :: 0 <= i < |t| ==> !IsDecimalDigit(t[i]) by {
      forall i | 0 <= i < |t| ensures !IsDecimalDigit(t[i]) {
        assert t[i] == s[|s| - |t| + i];
      }
    }
    if t != [] && (t[0] == '-' || t[0] == '+') {
      var u := t[1..];
      assert u == [] || !IsDecimalDigit(u[0]) by {
        if u != [] { assert u[0] == t[1]; }
      }
      assert ParseUnsigned(u) == None;
    } else {
      assert ParseUnsigned(t) == None;
    }
  }


  /** The text after the leading whitespace and an optional sign: where
      `parseInt` expects the number to start. */
  function AfterSign(s: string): (u: string)
    ensures |u| <= |s| && u == s[|s| - |u|..]
  {
    var t := TrimStart(s);
    if t != [] && (t[0] == '-' || t[0] == '+') then t[1..] else t
  }

  /** `u` starts a number: a decimal digit, or `0x`/`0X` followed by a
      hexadecimal digit. */
  predicate StartsNumber(u: string) {
    if HasHexPrefix(u) then |u| > 2 && IsHexDigit(u[2]) else u != [] && IsDecimalDigit(u[0])
  }

  /** `parseInt` gives a number exactly when one starts right after the
      leading whitespace and the optional sign; a negative number needs a
      minus sign there. Any other text ("abc5", "- 5", "0xg") is `NaN`. */
  lemma {:induction false} ParseIntIffNumberStarts(s: string)
    ensures ParseInt(s).Some? <==> StartsNumber(AfterSign(s))
    ensures ParseInt(s).Some? && ParseInt(s).value < 0 ==> TrimStart(s) != [] && TrimStart(s)[0] == '-'
  {
    var u := AfterSign(s);
    assert ParseInt(s) == ParseSigned(TrimStart(s));
    assert ParseUnsigned(u).Some? <==> StartsNumber(u) by {
      if HasHexPrefix(u) {
        assert u[2..] == [] <==> |u| == 2;
        assert |u| > 2 ==> u[2..][0] == u[2];
      }
    }
  }

  /** Text whose first character after the whitespace is neither a sign nor
      a digit is `NaN`, whatever follows ("abc5"). */
  lemma {:induction false} ParseIntOfNonNumericStart(ws: string, c: char, rest: string)
    requires AllWhitespace(ws)
    requires !IsWhitespace(c) && c != '-' && c != '+' && !IsDecimalDigit(c)
    ensures ParseInt(ws + [c] + rest) == None
  {
    var t := [c] + rest;
    assert ws + [c] + rest == ws + t;
    TrimStartSkipsSpace(ws, t);
    ParseIntIffNumberStarts(ws + t);
    assert AfterSign(ws + t) == t;
  }

  /** The sign `parseInt` accepts in front of the digits. */
  datatype Sign = NoSign | Minus | Plus

  function SignText(sg: Sign): string {
    match sg
    case NoSign => ""
    case Minus => "-"
    case Plus => "+"
  }

  /** The general decimal case: leading whitespace, an optional sign, digits
      (leading zeros allowed) and any text that does not continue the number
      ("  -007px" reads as -7). */
  lemma {:induction false} ParseIntReadsDecimal(ws: string, sg: Sign, d: string, suffix: string)
    requires AllWhitespace(ws)
    requires d != [] && AllDigitsIn(d, false)
    requires suffix == [] || !IsDecimalDigit(suffix[0])
    requires |d| == 1 && d[0] == '0' && suffix != [] ==> suffix[0] != 'x' && suffix[0] != 'X'
    ensures ParseInt(ws + SignText(sg) + d + suffix) ==
            Some(if sg == Minus then -(ValueOf(d, false) as int) else ValueOf(d, false))
  {
    var t := SignText(sg) + (d + suffix);
    assert ws + SignText(sg) + d + suffix == ws + t;
    ParseSignedOfDecimal(sg, d, suffix);
    ParseIntOfTrimmed(ws, t);
  }

  /** The signed part of `ParseIntReadsDecimal`: it starts with a sign or a
      digit, and the sign applies to the decimal value. */
  lemma {:induction false} ParseSignedOfDecimal(sg: Sign, d: string, suffix: string)
    requires d != [] && AllDigitsIn(d, false)
    requires suffix == [] || !IsDecimalDigit(suffix[0])
    requires |d| == 1 && d[0] == '0' && suffix != [] ==> suffix[0] != 'x' && suffix[0] != 'X'
    ensures var t := SignText(sg) + (d + suffix); t[0] == '-' || t[0] == '+' || IsDecimalDigit(t[0])
    ensures ParseSigned(SignText(sg) + (d + suffix)) ==
            Some(if sg == Minus then -(ValueOf(d, false) as int) else ValueOf(d, false))
  {
    var u := d + suffix;
    ParseUnsignedOfDecimal(d, suffix);
    assert u[0] == d[0];
    SignedOfUnsigned(sg, u, ValueOf(d, false));
  }

  /** `parseInt` skips leading whitespace up to a sign or a digit. */
  lemma {:induction false} ParseIntOfTrimmed(ws: string, t: string)
    requires AllWhitespace(ws)
    requires t != [] && (t[0] == '-' || t[0] == '+' || IsDecimalDigit(t[0]))
    ensures ParseInt(ws + t) == ParseSigned(t)
  {
    TrimStartSkipsSpace(ws, t);
  }

  /** A sign in front of a magnitude `parseInt` reads negates it or keeps it. */
  lemma {:induction false} SignedOfUnsigned(sg: Sign, u: string, v: nat)
    requires u != [] && IsDecimalDigit(u[0])
    requires ParseUnsigned(u) == Some(v)
    ensures var t := SignText(sg) + u; t[0] == '-' || t[0] == '+' || IsDecimalDigit(t[0])
    ensures ParseSigned(SignText(sg) + u) == Some(if sg == Minus then -(v as int) else v)
  {
    var t := SignText(sg) + u;
    if sg == NoSign {
      assert t == u;
    } else {
      assert t[0] == SignText(sg)[0] && t[1..] == u;
    }
  }

  lemma {:induction false} ParseUnsignedOfDecimal(d: string, suffix: string)
    requires d != [] && AllDigitsIn(d, false)
    requires suffix == [] || !IsDecimalDigit(suffix[0])
    requires |d| == 1 && d[0] == '0' && suffix != [] ==> suffix[0] != 'x' && suffix[0] != 'X'
    ensures ParseUnsigned(d + suffix) == Some(ValueOf(d, false))
  {
    var u := d + suffix;
    assert !HasHexPrefix(u) by {
      if |u| >= 2 && u[0] == '0' {
        if |d| >= 2 { assert u[1] == d[1]; } else { assert u[1] == suffix[0]; }
      }
    }
    DigitPrefixAppend(d, suffix, false);
  }

  /** The general hexadecimal case: leading whitespace, an optional sign, a
      `0x`/`0X` prefix, hexadecimal digits and any text that does not
      continue them ("  -0x1Fpx" reads as -31, "0x1A" as 26). */
  lemma {:induction false} ParseIntReadsHex(ws: string, sg: Sign, prefix: string, h: string, suffix: string)
    requires AllWhitespace(ws)
    requires prefix == "0x" || prefix == "0X"
    requires h != [] && AllDigitsIn(h, true)
    requires suffix == [] || !IsHexDigit(suffix[0])
    ensures ParseInt(ws + SignText(sg) + prefix + h + suffix) ==
            Some(if sg == Minus then -(ValueOf(h, true) as int) else ValueOf(h, true))
  {
    var t := SignText(sg) + (prefix + (h + suffix));
    assert ws + SignText(sg) + prefix + h + suffix == ws + t;
    ParseSignedOfHex(sg, prefix, h, suffix);
    ParseIntOfTrimmed(ws, t);
  }

  /** The signed part of `ParseIntReadsHex`: it starts with a sign or the
      digit `0`, and the sign applies to the hexadecimal value. */
  lemma {:induction false} ParseSignedOfHex(sg: Sign, prefix: string, h: string, suffix: string)
    requires prefix == "0x" || prefix == "0X"
    requires h != [] && AllDigitsIn(h, true)
    requires suffix == [] || !IsHexDigit(suffix[0])
    ensures var t := SignText(sg) + (prefix + (h + suffix)); t[0] == '-' || t[0] == '+' || IsDecimalDigit(t[0])
    ensures ParseSigned(SignText(sg) + (prefix + (h + suffix))) ==
            Some(if sg == Minus then -(ValueOf(h, true) as int) else ValueOf(h, true))
  {
    ParseUnsignedOfHex(prefix, h, suffix);
    SignedOfUnsigned(sg, prefix + (h + suffix), ValueOf(h, true));
  }

  /** After the prefix the hexadecimal digits are read up to the first
      character that is not one; the text starts with the digit `0`. */
  lemma {:induction false} ParseUnsignedOfHex(prefix: string, h: string, suffix: string)
    requires prefix == "0x" || prefix == "0X"
    requires h != [] && AllDigitsIn(h, true)
    requires suffix == [] || !IsHexDigit(suffix[0])
    ensures var u := prefix + (h + suffix); u != [] && IsDecimalDigit(u[0])
    ensures ParseUnsigned(prefix + (h + suffix)) == Some(ValueOf(h, true))
  {
    var u := prefix + (h + suffix);
    assert u[0] == '0' && (u[1] == 'x' || u[1] == 'X');
    assert u[2..] == h + suffix;
    DigitPrefixAppend(h, suffix, true);
  }
}
