/** `analyzeString`: the property record stored for one text value. */
module Analyzer {
  import opened Text
  import opened Words

  /** The record `analyzeString` returns. `sha256Hash` holds whatever the
      digest function given to `AnalyzeString` produces. */
  datatype StringProperties = StringProperties(
    length: nat,
    isPalindrome: bool,
    uniqueCharacters: nat,
    wordCount: nat,
    sha256Hash: string,
    characterFrequencyMap: map<char, nat>)

  predicate IsLowerAlphanumeric(c: char) {
    'a' <= c <= 'z' || '0' <= c <= '9'
  }

  /** `replace(/[^a-z0-9]/g, '')`: keeps the ASCII lower-case letters and
      digits, in order. */
  function KeepLowerAlphanumerics(s: string): (r: string)
    ensures |r| <= |s|
    ensures forall i :: 0 <= i < |r| ==> IsLowerAlphanumeric(r[i])
  {
    if s == [] then []
    else (if IsLowerAlphanumeric(s[0]) then [s[0]] else []) + KeepLowerAlphanumerics(s[1..])
  }

  /** Every ASCII lower-case letter and digit is kept, as often as it
      occurs, and text made only of them is kept whole. */
  lemma {:induction false} KeepExactlyLowerAlphanumerics(s: string)
    ensures forall c :: multiset(KeepLowerAlphanumerics(s))[c] == if IsLowerAlphanumeric(c) then multiset(s)[c] else 0
    ensures (forall i :: 0 <= i < |s| ==> IsLowerAlphanumeric(s[i])) ==> KeepLowerAlphanumerics(s) == s
    decreases |s|
  {
    if s != [] {
      assert s == [s[0]] + s[1..];
      KeepExactlyLowerAlphanumerics(s[1..]);
    }
  }

  lemma {:induction false} KeepAppend(a: string, b: string)
    ensures KeepLowerAlphanumerics(a + b) == KeepLowerAlphanumerics(a) + KeepLowerAlphanumerics(b)
    decreases |a|
  {
    if a == [] {
      assert a + b == b;
    } else {
      assert (a + b)[0] == a[0];
      assert (a + b)[1..] == a[1..] + b;
      KeepAppend(a[1..], b);
    }
  }

  /** The text the palindrome test compares with its reverse: lower-cased,
      then stripped of everything but `a`..`z` and `0`..`9`. */
  function PalindromeKey(s: string): string {
    KeepLowerAlphanumerics(ToLower(s))
  }

  /** `is_palindrome`: the key equals its reverse, so a key of at most one
      character always passes. */
  predicate IsPalindrome(s: string): (b: bool)
    ensures |PalindromeKey(s)| <= 1 ==> b
  {
    var k := PalindromeKey(s);
    k == Reverse(k)
  }

  /** `k` reads the same from both ends. */
  predicate Mirrored(k: string) {
    forall i :: 0 <= i < |k| ==> k[i] == k[|k| - 1 - i]
  }

  /** A character survives into the palindrome key: an ASCII letter or
      digit, or one of the two non-ASCII letters whose lower-case form
      starts with an ASCII letter. */
  predicate CountsForPalindrome(c: char) {
    IsLowerAlphanumeric(FoldAscii(c)) || c == KelvinSign || c == CapitalIWithDot
  }

  lemma {:induction false} KeyOfChar(c: char)
    ensures PalindromeKey([c]) == [] <==> !CountsForPalindrome(c)
  {
    assert [c][1..] == [];
    assert ToLower([c]) == LowerChar(c);
    var l := LowerChar(c);
    if c == CapitalIWithDot {
      assert l[1..] == "\U{0307}";
      assert KeepLowerAlphanumerics(l[1..]) == [];
    }
  }

  lemma {:induction false} KeyOfAppend(a: string, b: string)
    ensures PalindromeKey(a + b) == PalindromeKey(a) + PalindromeKey(b)
  {
    ToLowerAppend(a, b);
    KeepAppend(ToLower(a), ToLower(b));
  }

  /** The key is empty exactly when no character counts. */
  lemma {:induction false} EmptyKeyIffNothingCounts(s: string)
    ensures PalindromeKey(s) == [] <==> forall i :: 0 <= i < |s| ==> !CountsForPalindrome(s[i])
    decreases |s|
  {
    if s != [] {
      assert s == [s[0]] + s[1..];
      KeyOfAppend([s[0]], s[1..]);
      KeyOfChar(s[0]);
      EmptyKeyIffNothingCounts(s[1..]);
      assert (forall i :: 0 <= i < |s| ==> !CountsForPalindrome(s[i]))
        <==> !CountsForPalindrome(s[0]) && forall i :: 0 <= i < |s| - 1 ==> !CountsForPalindrome(s[1..][i]);
    }
  }

  /** `is_palindrome` holds exactly when the key reads the same both ways. */
  lemma {:induction false} PalindromeIffMirrored(s: string)
    ensures IsPalindrome(s) <==> Mirrored(PalindromeKey(s))
  {
    var k := PalindromeKey(s);
    if Mirrored(k) {
      assert k == Reverse(k);
    }
  }

  /** The empty text, and any text with no character that lower-cases to
      an ASCII letter or digit (no ASCII letter or digit, no Kelvin sign, no
      capital I with dot), counts as a palindrome. */
  lemma {:induction false} NothingToCompareIsPalindrome(s: string)
    requires forall i :: 0 <= i < |s| ==> !CountsForPalindrome(s[i])
    ensures IsPalindrome(s)
  {
    EmptyKeyIffNothingCounts(s);
  }

  /** Changing the case of ASCII letters never changes `is_palindrome`. */
  lemma {:induction false} PalindromeIgnoresAsciiCase(a: string, b: string)
    requires SameUpToAsciiCase(a, b)
    ensures IsPalindrome(a) == IsPalindrome(b)
  {
    ToLowerIgnoresAsciiCase(a, b);
  }

  /** Inserting a character that does not count (a space, a punctuation
      mark) never changes `is_palindrome`. */
  lemma {:induction false} PalindromeIgnoresPunctuation(a: string, c: char, b: string)
    requires !CountsForPalindrome(c)
    ensures IsPalindrome(a + [c] + b) == IsPalindrome(a + b)
  {
    KeyOfAppend(a + [c], b);
    KeyOfAppend(a, [c]);
    KeyOfAppend(a, b);
    KeyOfChar(c);
    assert PalindromeKey(a + [c]) == PalindromeKey(a);
    assert PalindromeKey(a + [c] + b) == PalindromeKey(a + b);
  }

  /** The distinct characters of `s` (`new Set(str.split(''))`). */
  function CharSet(s: string): set<char> {
    set i | 0 <= i < |s| :: s[i]
  }

  lemma {:induction false} CharSetBound(s: string)
    ensures |CharSet(s)| <= |s|
    decreases |s|
  {
    if s != [] {
      var init := s[..|s| - 1];
      CharSetBound(init);
      assert CharSet(s) == CharSet(init) + {s[|s| - 1]} by {
        forall c | c in CharSet(s) ensures c in CharSet(init) + {s[|s| - 1]} {
          var i :| 0 <= i < |s| && s[i] == c;
          if i < |s| - 1 { assert init[i] == c; }
        }
      }
    }
  }

  /** `character_frequency_map`: one pass over the text, starting each
      counter at zero and adding one per occurrence. */
  function FrequencyMap(s: string): (m: map<char, nat>)
    ensures m.Keys == CharSet(s)
    ensures forall c :: c in m ==> m[c] == multiset(s)[c]
    decreases |s|
  {
    if s == [] then map[]
    else
      var init := s[..|s| - 1];
      var c := s[|s| - 1];
      var m0 := FrequencyMap(init);
      assert s == init + [c];
      assert CharSet(s) == CharSet(init) + {c} by {
        forall x | x in CharSet(s) ensures x in CharSet(init) + {c} {
          var i :| 0 <= i < |s| && s[i] == x;
          if i < |s| - 1 { assert init[i] == x; }
        }
      }
      m0[c := (if c in m0 then m0[c] else 0) + 1]
  }

  /** The sum of the counts of a frequency map. */
  ghost function SumOfCounts(m: map<char, nat>): nat
    decreases |m|
  {
    if m == map[] then 0
    else
      var k :| k in m;
      m[k] + SumOfCounts(m - {k})
  }

  /** `SumOfCounts` does not depend on which key it takes first. */
  lemma {:induction false} SumOfCountsWithout(m: map<char, nat>, k: char)
    requires k in m
    ensures SumOfCounts(m) == m[k] + SumOfCounts(m - {k})
    decreases |m|
  {
    var j :| j in m && SumOfCounts(m) == m[j] + SumOfCounts(m - {j});
    if j != k {
      var both := m - {j} - {k};
      assert m - {j} - {k} == m - {k} - {j};
      SumOfCountsWithout(m - {j}, k);
      SumOfCountsWithout(m - {k}, j);
    }
  }

  /** Adding one to a counter adds one to the sum. */
  lemma {:induction false} SumOfCountsIncrement(m: map<char, nat>, c: char)
    ensures SumOfCounts(m[c := (if c in m then m[c] else 0) + 1]) == SumOfCounts(m) + 1
  {
    var m' := m[c := (if c in m then m[c] else 0) + 1];
    SumOfCountsWithout(m', c);
    assert m' - {c} == m - {c};
    if c in m {
      SumOfCountsWithout(m, c);
    } else {
      assert m - {c} == m;
    }
  }

  /** The counts of the frequency map add up to the length of the text. */
  lemma {:induction false} FrequenciesSumToLength(s: string)
    ensures SumOfCounts(FrequencyMap(s)) == |s|
    decreases |s|
  {
    if s != [] {
      FrequenciesSumToLength(s[..|s| - 1]);
      LastCharacterCounted(s);
    }
  }

  /** Counting the last character adds one to the sum of the counts. */
  lemma {:induction false} LastCharacterCounted(s: string)
    requires s != []
    ensures SumOfCounts(FrequencyMap(s)) == SumOfCounts(FrequencyMap(s[..|s| - 1])) + 1
  {
    SumOfCountsIncrement(FrequencyMap(s[..|s| - 1]), s[|s| - 1]);
  }

  /** `analyzeString`. The SHA-256 digest is a call into the crypto
      library, so it comes in as the function `sha256Hex`. */
  function AnalyzeString(s: string, sha256Hex: string -> string): (r: StringProperties)
    ensures r.length == |s|
    ensures r.isPalindrome <==> Mirrored(PalindromeKey(s))
    ensures r.characterFrequencyMap.Keys == CharSet(s)
    ensures forall c :: c in r.characterFrequencyMap ==> r.characterFrequencyMap[c] == multiset(s)[c]
    ensures SumOfCounts(r.characterFrequencyMap) == r.length
    ensures r.uniqueCharacters == |r.characterFrequencyMap| <= r.length
    ensures r.wordCount == RunCount(s) <= r.length
    ensures r.wordCount == 0 <==> Trim(s) == []
    ensures r.sha256Hash == sha256Hex(s)
  {
    PalindromeIffMirrored(s);
    FrequenciesSumToLength(s);
    CharSetBound(s);
    StringProperties(
      |s|,
      IsPalindrome(s),
      |CharSet(s)|,
      WordCount(s),
      sha256Hex(s),
      FrequencyMap(s))
  }
}
