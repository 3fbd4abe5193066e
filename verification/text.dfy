/** Character classes and string primitives shared by the analyzer and the
    two query front ends. A JavaScript string is modelled as a sequence of
    characters, one character per code unit. */
module Text {

  /** The characters removed by `String.prototype.trim` and matched by the
      regular-expression class `\s`: ECMAScript's WhiteSpace and
      LineTerminator productions (U+0009..U+000D, space, no-break space,
      the Unicode space separators, U+2028, U+2029 and the byte order mark). */
  predicate IsWhitespace(c: char) {
    || '\t' <= c <= '\r'
    || c == ' '
    || c == '\U{00A0}'
    || c == '\U{1680}'
    || '\U{2000}' <= c <= '\U{200A}'
    || c == '\U{2028}'
    || c == '\U{2029}'
    || c == '\U{202F}'
    || c == '\U{205F}'
    || c == '\U{3000}'
    || c == '\U{FEFF}'
  }

  predicate AllWhitespace(s: string) {
    forall i :: 0 <= i < |s| ==> IsWhitespace(s[i])
  }

  /** The number of whitespace characters `s` starts with. */
  function LeadingSpace(s: string): (n: nat)
    ensures n <= |s|
    ensures forall i :: 0 <= i < n ==> IsWhitespace(s[i])
    ensures n == |s| || !IsWhitespace(s[n])
  {
    if s == [] || !IsWhitespace(s[0]) then 0 else 1 + LeadingSpace(s[1..])
  }

  /** Removes leading whitespace (`trimStart`). */
  function TrimStart(s: string): (r: string)
    ensures |r| <= |s| && r == s[|s| - |r|..]
    ensures AllWhitespace(s[..|s| - |r|])
    ensures r == [] || !IsWhitespace(r[0])
    ensures s != [] && IsWhitespace(s[0]) ==> |r| < |s|
  {
    s[LeadingSpace(s)..]
  }

  /** Text that does not start with whitespace is its own `trimStart`. */
  lemma {:induction false} TrimStartOfNonSpace(s: string)
    requires s == [] || !IsWhitespace(s[0])
    ensures TrimStart(s) == s
  {
    assert LeadingSpace(s) == 0;
  }

  /** The number of whitespace characters `s` ends with. */
  function TrailingSpace(s: string): (n: nat)
    ensures n <= |s|
    ensures forall i :: |s| - n <= i < |s| ==> IsWhitespace(s[i])
    ensures n == |s| || !IsWhitespace(s[|s| - 1 - n])
  {
    if s == [] || !IsWhitespace(s[|s| - 1]) then 0 else 1 + TrailingSpace(s[..|s| - 1])
  }

  /** Whitespace in front of text that starts with something else is
      exactly what `TrimStart` removes. */
  lemma {:induction false} TrimStartSkipsSpace(ws: string, t: string)
    requires AllWhitespace(ws)
    requires t == [] || !IsWhitespace(t[0])
    ensures TrimStart(ws + t) == t
  {
    var s := ws + t;
    assert forall i :: 0 <= i < |ws| ==> s[i] == ws[i];
    assert s[|ws|..] == t;
  }

  /** Removes trailing whitespace (`trimEnd`). */
  function TrimEnd(s: string): (r: string)
    ensures |r| <= |s| && r == s[..|r|]
    ensures AllWhitespace(s[|r|..])
    ensures r == [] || !IsWhitespace(r[|r| - 1])
  {
    s[..|s| - TrailingSpace(s)]
  }

  /** `String.prototype.trim`: the text between the leading and the
      trailing whitespace. */
  function Trim(s: string): (r: string)
    ensures LeadingSpace(s) + |r| <= |s| && r == s[LeadingSpace(s)..LeadingSpace(s) + |r|]
    ensures AllWhitespace(s[..LeadingSpace(s)]) && AllWhitespace(s[LeadingSpace(s) + |r|..])
    ensures r == [] <==> AllWhitespace(s)
    ensures r == [] || (!IsWhitespace(r[0]) && !IsWhitespace(r[|r| - 1]))
  {
    var r := TrimEnd(TrimStart(s));
    TrimIsSlice(s, r);
    TrimEmptyIffBlank(s, r);
    r
  }

  /** What `Trim` keeps is the run between the leading and the trailing
      whitespace, and it starts and ends with something else. */
  lemma {:induction false} TrimIsSlice(s: string, r: string)
    requires r == TrimEnd(TrimStart(s))
    ensures LeadingSpace(s) + |r| <= |s| && r == s[LeadingSpace(s)..LeadingSpace(s) + |r|]
    ensures AllWhitespace(s[..LeadingSpace(s)]) && AllWhitespace(s[LeadingSpace(s) + |r|..])
    ensures r == [] || (!IsWhitespace(r[0]) && !IsWhitespace(r[|r| - 1]))
  {
    var t := TrimStart(s);
    var a := LeadingSpace(s);
    assert t == s[a..];
    assert r == s[a..a + |r|] by { assert r == t[..|r|]; }
    assert s[a + |r|..] == t[|r|..];
    assert r == [] || r[0] == t[0];
  }

  /** `Trim` leaves nothing exactly when there is nothing but whitespace. */
  lemma {:induction false} TrimEmptyIffBlank(s: string, r: string)
    requires r == TrimEnd(TrimStart(s))
    ensures r == [] <==> AllWhitespace(s)
  {
    var t := TrimStart(s);
    var a := |s| - |t|;
    AllWhitespaceSplit(s, a);
    if r != [] { assert r[0] == t[0]; }
  }

  /** Text is all whitespace exactly when both parts of any split are. */
  lemma {:induction false} AllWhitespaceSplit(s: string, k: nat)
    requires k <= |s|
    ensures AllWhitespace(s) <==> AllWhitespace(s[..k]) && AllWhitespace(s[k..])
  {
    if AllWhitespace(s[..k]) && AllWhitespace(s[k..]) {
      forall i | 0 <= i < |s| ensures IsWhitespace(s[i]) {
        if i < k { assert s[i] == s[..k][i]; } else { assert s[i] == s[k..][i - k]; }
      }
    }
  }

  /** Trimming text with no ASCII capital leaves none. */
  lemma {:induction false} TrimKeepsLowerCase(s: string)
    requires forall i :: 0 <= i < |s| ==> !IsAsciiUpper(s[i])
    ensures forall i :: 0 <= i < |Trim(s)| ==> !IsAsciiUpper(Trim(s)[i])
  {
    SliceKeepsLowerCase(s, LeadingSpace(s), Trim(s));
  }

  /** A contiguous piece of text with no ASCII capital has none either. */
  lemma {:induction false} SliceKeepsLowerCase(s: string, a: nat, r: string)
    requires a + |r| <= |s| && r == s[a..a + |r|]
    requires forall i :: 0 <= i < |s| ==> !IsAsciiUpper(s[i])
    ensures forall i :: 0 <= i < |r| ==> !IsAsciiUpper(r[i])
  {
    forall i | 0 <= i < |r| ensures !IsAsciiUpper(r[i]) {
      assert r[i] == s[a + i];
    }
  }

  /** Code point of the Kelvin sign, whose JavaScript lower-case form is
      the ASCII letter `k`. */
  const KelvinSign: char := '\U{212A}'

  /** Code point of LATIN CAPITAL LETTER I WITH DOT ABOVE, whose JavaScript
      lower-case form is `i` followed by a combining dot. */
  const CapitalIWithDot: char := '\U{0130}'

  predicate IsAsciiUpper(c: char) {
    'A' <= c <= 'Z'
  }

  /** ASCII-only case folding: maps `A`..`Z` to `a`..`z`, keeps the rest. */
  function FoldAscii(c: char): (d: char)
    ensures IsAsciiUpper(c) ==> d as int == c as int + 32
    ensures !IsAsciiUpper(c) ==> d == c
  {
    if IsAsciiUpper(c) then (c as int + 32) as char else c
  }

  /** `toLowerCase` of one character. Characters whose lower-case form lies
      outside ASCII are kept as they are: every use of lower-cased text in
      the model only inspects ASCII letters, digits and whitespace. */
  function LowerChar(c: char): string {
    if IsAsciiUpper(c) then [FoldAscii(c)]
    else if c == KelvinSign then "k"
    else if c == CapitalIWithDot then "i\U{0307}"
    else [c]
  }

  /** `String.prototype.toLowerCase`. */
  function ToLower(s: string): string
    decreases |s|
  {
    if s == [] then [] else LowerChar(s[0]) + ToLower(s[1..])
  }

  /** No ASCII capital survives lower-casing. */
  lemma {:induction false} ToLowerLeavesNoCapital(s: string)
    ensures forall i :: 0 <= i < |ToLower(s)| ==> !IsAsciiUpper(ToLower(s)[i])
    decreases |s|
  {
    if s != [] {
      ToLowerLeavesNoCapital(s[1..]);
      var head := LowerChar(s[0]);
      var tail := ToLower(s[1..]);
      assert forall i :: 0 <= i < |head| ==> !IsAsciiUpper(head[i]);
      assert forall i :: |head| <= i < |head + tail| ==> (head + tail)[i] == tail[i - |head|];
    }
  }

  /** Text with nothing to lower-case is returned unchanged. */
  lemma {:induction false} ToLowerOfLowerCase(s: string)
    requires forall i :: 0 <= i < |s| ==> !IsAsciiUpper(s[i]) && s[i] != KelvinSign && s[i] != CapitalIWithDot
    ensures ToLower(s) == s
    decreases |s|
  {
    if s != [] {
      ToLowerOfLowerCase(s[1..]);
    }
  }

  /** `a` and `b` differ at most in the case of ASCII letters. */
  predicate SameUpToAsciiCase(a: string, b: string) {
    |a| == |b| && forall i :: 0 <= i < |a| ==> FoldAscii(a[i]) == FoldAscii(b[i])
  }

  /** Lower-casing forgets the case of ASCII letters. */
  lemma {:induction false} ToLowerIgnoresAsciiCase(a: string, b: string)
    requires SameUpToAsciiCase(a, b)
    ensures ToLower(a) == ToLower(b)
    decreases |a|
  {
    if a != [] {
      assert FoldAscii(a[0]) == FoldAscii(b[0]);
      assert LowerChar(a[0]) == LowerChar(b[0]);
      assert SameUpToAsciiCase(a[1..], b[1..]) by {
        forall i | 0 <= i < |a| - 1 ensures FoldAscii(a[1..][i]) == FoldAscii(b[1..][i]) {
          assert FoldAscii(a[i + 1]) == FoldAscii(b[i + 1]);
        }
      }
      ToLowerIgnoresAsciiCase(a[1..], b[1..]);
    }
  }

  lemma {:induction false} ToLowerAppend(a: string, b: string)
    ensures ToLower(a + b) == ToLower(a) + ToLower(b)
    decreases |a|
  {
    if a != [] {
      assert (a + b)[0] == a[0];
      assert (a + b)[1..] == a[1..] + b;
      ToLowerAppend(a[1..], b);
      assert ToLower(a + b) == LowerChar(a[0]) + (ToLower(a[1..]) + ToLower(b));
    } else {
      assert a + b == b;
    }
  }

  /** `s` has `pattern` as its first characters. */
  predicate StartsWith(s: string, pattern: string) {
    |pattern| <= |s| && s[..|pattern|] == pattern
  }

  /** Text starts with its first part, and what follows is the rest. */
  lemma {:induction false} StartsWithConcat(a: string, b: string)
    ensures StartsWith(a + b, a) && (a + b)[|a|..] == b
  {
    assert (a + b)[..|a|] == a;
  }

  /** Four pieces joined left to right are the same text joined right to
      left. */
  lemma {:induction false} JoinRegroups(a: string, b: string, c: string, e: string)
    ensures a + b + c + e == a + (b + (c + e))
  {
  }

  /** A prefix followed by a prefix of the remainder is a prefix. */
  lemma {:induction false} StartsWithThen(s: string, a: string, b: string)
    requires StartsWith(s, a) && StartsWith(s[|a|..], b)
    ensures StartsWith(s, a + b)
  {
    forall i | 0 <= i < |a| + |b| ensures s[i] == (a + b)[i] {
      if i < |a| { assert s[..|a|][i] == s[i]; } else { assert s[|a|..][..|b|][i - |a|] == s[i]; }
    }
    assert s[..|a + b|] == a + b;
  }

  /** `pattern` occurs in `s` starting at position `i`. */
  predicate OccursAt(s: string, pattern: string, i: int) {
    0 <= i && i + |pattern| <= |s| && s[i..i + |pattern|] == pattern
  }

  /** `String.prototype.includes`: try every starting position in turn. */
  predicate Includes(s: string, pattern: string): (b: bool)
    ensures pattern == [] ==> b
    ensures b ==> |pattern| <= |s|
    decreases |s|
  {
    StartsWith(s, pattern) || (s != [] && Includes(s[1..], pattern))
  }

  /** The scan in `Includes` finds exactly the occurrences of `pattern`. */
  lemma {:induction false} IncludesIffOccurs(s: string, pattern: string)
    ensures Includes(s, pattern) <==> exists i :: OccursAt(s, pattern, i)
    decreases |s|
  {
    if StartsWith(s, pattern) {
      assert OccursAt(s, pattern, 0);
    } else if s == [] {
    } else {
      IncludesIffOccurs(s[1..], pattern);
      if exists i :: OccursAt(s[1..], pattern, i) {
        var i :| OccursAt(s[1..], pattern, i);
        assert s[1..][i..i + |pattern|] == s[i + 1..i + 1 + |pattern|];
        assert OccursAt(s, pattern, i + 1);
      }
      if exists i :: OccursAt(s, pattern, i) {
        var i :| OccursAt(s, pattern, i);
        assert i != 0;
        assert s[1..][i - 1..i - 1 + |pattern|] == s[i..i + |pattern|];
        assert OccursAt(s[1..], pattern, i - 1);
      }
    }
  }

  /** `s.split('').reverse().join('')`. */
  function Reverse(s: string): (r: string)
    ensures |r| == |s|
    ensures forall i :: 0 <= i < |s| ==> r[i] == s[|s| - 1 - i]
  {
    if s == [] then [] else Reverse(s[1..]) + [s[0]]
  }
}
