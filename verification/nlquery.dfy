/** `parseNaturalLanguageQuery`: an ordered table of phrase triggers that
    produces the string-valued filter map `buildWhereClause` consumes. */
module NaturalLanguage {
  import opened Wrappers
  import opened Text
  import opened Numbers
  import opened FilterBuilder
  import Analyzer

  /** Filter to raw text, as produced for `buildWhereClause`. */
  type Filters = map<Filter, string>

  /** The filters as request properties, keyed by their names. */
  function AsQuery(f: Filters): (q: Query)
    ensures forall g :: Name(g) in q <==> g in f
    ensures forall g :: g in f ==> q[Name(g)] == f[g]
    ensures forall key :: key in q ==> IsRecognized(key)
  {
    NamesInjective();
    map g | g in f :: Name(g) := f[g]
  }

  const ConflictMessage := "Conflicting filters: min_length cannot be greater than max_length"

  /** `query.toLowerCase().trim()`: no ASCII capital and no whitespace at
      either end remain. */
  function Normalize(query: string): (t: string)
    ensures forall i :: 0 <= i < |t| ==> !IsAsciiUpper(t[i])
    ensures t == [] || (!IsWhitespace(t[0]) && !IsWhitespace(t[|t| - 1]))
  {
    var lower := ToLower(query);
    ToLowerLeavesNoCapital(query);
    TrimKeepsLowerCase(lower);
    Trim(lower)
  }

  const LongerThan := "longer than "
  const GreaterThan := "greater than "
  const CharacterWord := " character"
  const LetterPhrase := "containing the letter "

  /** The regular expression `(longer|greater) than (\d+) characters?`
      tried at the start of `s`: the captured digits. Backtracking into
      `\d+` can never help, since the text after a shorter run would start
      with a digit rather than a space; `\d+` is greedy, so the capture is
      the longest run of ASCII digits. */
  function LengthPhraseAt(s: string): (d: Option<string>)
    ensures d.Some? ==> d.value != [] && AllDigitsIn(d.value, false)
  {
    var rest := AfterLengthLead(s);
    if rest.None? then None
    else
      var digits := DigitPrefix(rest.value, false);
      if digits != [] && StartsWith(rest.value[|digits|..], CharacterWord) then Some(digits) else None
  }

  /** The text after "longer than " or "greater than " at the start of `s`. */
  function AfterLengthLead(s: string): Option<string> {
    if StartsWith(s, LongerThan) then Some(s[|LongerThan|..])
    else if StartsWith(s, GreaterThan) then Some(s[|GreaterThan|..])
    else None
  }

  /** `s.match(...)` for the length phrase: the leftmost position where it
      matches. */
  function FirstLengthPhrase(s: string): (d: Option<string>)
    ensures d.Some? ==> d.value != [] && AllDigitsIn(d.value, false)
    decreases |s|
  {
    if s == [] then None
    else if LengthPhraseAt(s).Some? then LengthPhraseAt(s)
    else FirstLengthPhrase(s[1..])
  }

  /** The regular expression `containing the letter ([a-z])` tried at the
      start of `s`: the captured letter. */
  function LetterPhraseAt(s: string): (x: Option<char>)
    ensures x.Some? ==> 'a' <= x.value <= 'z'
  {
    if StartsWith(s, LetterPhrase) && |s| > |LetterPhrase| && 'a' <= s[|LetterPhrase|] <= 'z'
    then Some(s[|LetterPhrase|])
    else None
  }

  /** The leftmost match of the letter phrase. */
  function FirstLetterPhrase(s: string): (x: Option<char>)
    ensures x.Some? ==> 'a' <= x.value <= 'z'
    decreases |s|
  {
    if s == [] then None
    else if LetterPhraseAt(s).Some? then LetterPhraseAt(s)
    else FirstLetterPhrase(s[1..])
  }

  /** The length phrase is found at the leftmost position where the
      pattern matches. */
  lemma {:induction false} LengthPhraseLeftmost(s: string, i: nat)
    requires i < |s| && LengthPhraseAt(s[i..]).Some?
    requires forall k :: 0 <= k < i ==> LengthPhraseAt(s[k..]).None?
    ensures FirstLengthPhrase(s) == LengthPhraseAt(s[i..])
    decreases i
  {
    if i > 0 {
      assert LengthPhraseAt(s[0..]).None?;
      assert s[0..] == s;
      forall k | 0 <= k < i - 1
        ensures LengthPhraseAt(s[1..][k..]).None?
      {
        assert s[1..][k..] == s[k + 1..];
      }
      assert s[1..][i - 1..] == s[i..];
      LengthPhraseLeftmost(s[1..], i - 1);
    }
  }

  /** No length phrase is found exactly when the pattern matches nowhere. */
  lemma {:induction false} NoLengthPhrase(s: string)
    ensures FirstLengthPhrase(s).None? <==> forall k :: 0 <= k < |s| ==> LengthPhraseAt(s[k..]).None?
    decreases |s|
  {
    if s != [] {
      NoLengthPhrase(s[1..]);
      assert s[0..] == s;
      forall k | 0 < k < |s|
        ensures s[k..] == s[1..][k - 1..]
      {
      }
    }
  }

  /** The letter phrase is found at the leftmost position where the pattern
      matches. */
  lemma {:induction false} LetterPhraseLeftmost(s: string, i: nat)
    requires i < |s| && LetterPhraseAt(s[i..]).Some?
    requires forall k :: 0 <= k < i ==> LetterPhraseAt(s[k..]).None?
    ensures FirstLetterPhrase(s) == LetterPhraseAt(s[i..])
    decreases i
  {
    if i > 0 {
      assert LetterPhraseAt(s[0..]).None?;
      assert s[0..] == s;
      forall k | 0 <= k < i - 1
        ensures LetterPhraseAt(s[1..][k..]).None?
      {
        assert s[1..][k..] == s[k + 1..];
      }
      assert s[1..][i - 1..] == s[i..];
      LetterPhraseLeftmost(s[1..], i - 1);
    }
  }

  /** No letter phrase is found exactly when the pattern matches nowhere. */
  lemma {:induction false} NoLetterPhrase(s: string)
    ensures FirstLetterPhrase(s).None? <==> forall k :: 0 <= k < |s| ==> LetterPhraseAt(s[k..]).None?
    decreases |s|
  {
    if s != [] {
      NoLetterPhrase(s[1..]);
      assert s[0..] == s;
      forall k | 0 < k < |s|
        ensures s[k..] == s[1..][k - 1..]
      {
      }
    }
  }

  /** The two wordings the length pattern accepts before the digits. */
  function LengthLead(greater: bool): string {
    if greater then GreaterThan else LongerThan
  }

  /** "longer than D character..." and "greater than D character..." match,
      capturing all of D, for any decimal digits D. */
  lemma {:induction false} LengthPhraseCapturesDigits(greater: bool, d: string, rest: string)
    requires d != [] && AllDigitsIn(d, false)
    ensures LengthPhraseAt(LengthLead(greater) + d + CharacterWord + rest) == Some(d)
  {
    var after := d + (CharacterWord + rest);
    JoinRegroups(LengthLead(greater), d, CharacterWord, rest);
    LeadThenRest(greater, after);
    DigitsThenCharacterWord(d, rest);
  }

  lemma {:induction false} LeadThenRest(greater: bool, after: string)
    ensures AfterLengthLead(LengthLead(greater) + after) == Some(after)
  {
    var lead := LengthLead(greater);
    StartsWithConcat(lead, after);
    if greater {
      assert !StartsWith(lead + after, LongerThan) by { assert (lead + after)[0] == 'g'; }
    }
  }

  lemma {:induction false} DigitsThenCharacterWord(d: string, rest: string)
    requires d != [] && AllDigitsIn(d, false)
    ensures var after := d + (CharacterWord + rest);
            DigitPrefix(after, false) == d && StartsWith(after[|d|..], CharacterWord)
  {
    DigitPrefixAppend(d, CharacterWord + rest, false);
    StartsWithConcat(d, CharacterWord + rest);
    StartsWithConcat(CharacterWord, rest);
  }

  /** A length-phrase match means the phrase is really there: "longer than"
      or "greater than", the captured digits, then " character". */
  lemma {:induction false} LengthPhraseSound(s: string)
    requires LengthPhraseAt(s).Some?
    ensures var d := LengthPhraseAt(s).value;
            StartsWith(s, LongerThan + d + CharacterWord) || StartsWith(s, GreaterThan + d + CharacterWord)
  {
    var d := LengthPhraseAt(s).value;
    var lead := if StartsWith(s, LongerThan) then LongerThan else GreaterThan;
    var rest := s[|lead|..];
    StartsWithThen(rest, d, CharacterWord);
    StartsWithThen(s, lead, d + CharacterWord);
    assert lead + (d + CharacterWord) == lead + d + CharacterWord;
  }

  /** A letter-phrase match means "containing the letter " followed by the
      captured letter is really there. */
  lemma {:induction false} LetterPhraseSound(s: string)
    requires LetterPhraseAt(s).Some?
    ensures StartsWith(s, LetterPhrase + [LetterPhraseAt(s).value])
  {
    var x := LetterPhraseAt(s).value;
    assert s[..|LetterPhrase| + 1] == s[..|LetterPhrase|] + [x];
  }

  /** "containing the letter x" matches, capturing x, for any ASCII
      lower-case letter x. */
  lemma {:induction false} LetterPhraseCapturesLetter(x: char, rest: string)
    requires 'a' <= x <= 'z'
    ensures LetterPhraseAt(LetterPhrase + [x] + rest) == Some(x)
  {
    var s := LetterPhrase + [x] + rest;
    assert s[..|LetterPhrase|] == LetterPhrase;
    assert s[|LetterPhrase|] == x;
  }

  predicate MentionsOneWord(t: string) {
    Includes(t, "single word") || Includes(t, "one word")
  }

  predicate MentionsPalindrome(t: string) {
    Includes(t, "palindromic") || Includes(t, "palindrome")
  }

  predicate MentionsFirstVowel(t: string) {
    Includes(t, "first vowel")
  }

  /** `f[key := value]` when `cond` holds. */
  function SetIf(f: Filters, cond: bool, key: Filter, value: string): Filters {
    if cond then f[key := value] else f
  }

  /** N, the number in the leftmost length phrase of `t`. */
  function PhraseNumber(t: string): nat
    requires FirstLengthPhrase(t).Some?
  {
    ValueOf(FirstLengthPhrase(t).value, false)
  }

  /** "longer than N" read as "at least N + 1". */
  function LengthBound(t: string): int
    requires FirstLengthPhrase(t).Some?
  {
    PhraseNumber(t) + 1
  }

  /** `(parseInt(digits) + 1).toString()`; `NaN + 1` prints as "NaN".
      Parsing the text again gives the successor, or `NaN` again. */
  function SuccessorText(digits: string): (r: string)
    ensures ParseInt(digits).Some? ==> ParseInt(r) == Some(ParseInt(digits).value + 1)
    ensures ParseInt(digits).None? ==> ParseInt(r).None?
  {
    match ParseInt(digits)
    case Some(n) =>
      ParseIntRoundTrip(n + 1);
      IntToString(n + 1)
    case None =>
      ParseIntNeedsDigit("NaN");
      "NaN"
  }

  /** `parseNaturalLanguageQuery(query)`: the triggers run in order and a
      later one overwrites an earlier one's value for the same filter.
      The final check throws when both length bounds are present and
      contradict each other. */
  function ParseNaturalLanguageQuery(query: string): (r: Result<Filters, string>)
    ensures r.Success? && MaxLengthFilter !in r.value
  {
    var filters := ApplyRules(Normalize(query));
    assert !Conflicting(filters) by { assert MaxLengthFilter !in filters; }
    if Conflicting(filters) then Failure(ConflictMessage) else Success(filters)
  }

  /** The triggers of the parser. */
  datatype Trigger = OneWordTrigger | PalindromeTrigger | LengthTrigger | FirstVowelTrigger | LetterTrigger

  /** The triggers in the order the parser tries them. */
  const TriggerTable: seq<Trigger> := [OneWordTrigger, PalindromeTrigger, LengthTrigger, FirstVowelTrigger, LetterTrigger]

  /** One trigger applied to the normalized text `t` and the filters so far. */
  function Fire(trigger: Trigger, t: string, f: Filters): (g: Filters)
    ensures g.Keys <= f.Keys + ParserKeys
  {
    match trigger
    case OneWordTrigger => SetIf(f, MentionsOneWord(t), WordCountFilter, "1")
    case PalindromeTrigger => SetIf(f, MentionsPalindrome(t), IsPalindromeFilter, "true")
    case LengthTrigger =>
      var lengthMatch := FirstLengthPhrase(t);
      SetIf(f, lengthMatch.Some?, MinLengthFilter, if lengthMatch.Some? then SuccessorText(lengthMatch.value) else "")
    case FirstVowelTrigger =>
      SetIf(SetIf(f, MentionsFirstVowel(t), IsPalindromeFilter, "true"), MentionsFirstVowel(t), ContainsCharacterFilter, "a")
    case LetterTrigger =>
      var letterMatch := FirstLetterPhrase(t);
      SetIf(f, letterMatch.Some?, ContainsCharacterFilter, if letterMatch.Some? then [letterMatch.value] else "")
  }

  /** The triggers of `triggers` fired one after another. */
  function FireAll(triggers: seq<Trigger>, t: string, f: Filters): (g: Filters)
    ensures g.Keys <= f.Keys + ParserKeys
    decreases |triggers|
  {
    if triggers == [] then f else FireAll(triggers[1..], t, Fire(triggers[0], t, f))
  }

  /** The trigger table run over the normalized text, starting from no
      filters. */
  function ApplyRules(t: string): (f: Filters)
    ensures f.Keys <= ParserKeys && MaxLengthFilter !in f
  {
    FireAll(TriggerTable, t, map[])
  }

  /** The table fired step by step. */
  lemma {:induction false} TableUnrolled(t: string)
    ensures ApplyRules(t) ==
            Fire(LetterTrigger, t, Fire(FirstVowelTrigger, t, Fire(LengthTrigger, t,
              Fire(PalindromeTrigger, t, Fire(OneWordTrigger, t, map[])))))
  {
    var f1 := Fire(OneWordTrigger, t, map[]);
    var f2 := Fire(PalindromeTrigger, t, f1);
    var f3 := Fire(LengthTrigger, t, f2);
    var f4 := Fire(FirstVowelTrigger, t, f3);
    var f5 := Fire(LetterTrigger, t, f4);
    assert TriggerTable[1..] == [PalindromeTrigger, LengthTrigger, FirstVowelTrigger, LetterTrigger];
    assert FireAll(TriggerTable, t, map[]) == FireAll(TriggerTable[1..], t, f1);
    assert FireAll([PalindromeTrigger, LengthTrigger, FirstVowelTrigger, LetterTrigger], t, f1)
        == FireAll([LengthTrigger, FirstVowelTrigger, LetterTrigger], t, f2);
    assert FireAll([LengthTrigger, FirstVowelTrigger, LetterTrigger], t, f2)
        == FireAll([FirstVowelTrigger, LetterTrigger], t, f3);
    assert FireAll([FirstVowelTrigger, LetterTrigger], t, f3) == FireAll([LetterTrigger], t, f4);
    assert FireAll([LetterTrigger], t, f4) == FireAll([], t, f5);
  }

  /** `filters.min_length && filters.max_length && parseInt(min) > parseInt(max)`. */
  predicate Conflicting(f: Filters) {
    && MinLengthFilter in f && MaxLengthFilter in f
    && f[MinLengthFilter] != "" && f[MaxLengthFilter] != ""
    && ParseInt(f[MinLengthFilter]).Some? && ParseInt(f[MaxLengthFilter]).Some?
    && ParseInt(f[MinLengthFilter]).value > ParseInt(f[MaxLengthFilter]).value
  }

  /** The conflict check agrees with the builder: it fires exactly when
      building the same filters would echo both bounds with `min_length`
      above `max_length`. */
  lemma {:induction false} ConflictMeansCrossedBounds(f: Filters)
    ensures var e := BuildWhereClause(AsQuery(f)).filtersApplied;
            Conflicting(f) <==> && MinLengthFilter in e && MaxLengthFilter in e
                                && e[MinLengthFilter].n > e[MaxLengthFilter].n
  {
    var q := AsQuery(f);
    assert MinLengthFilter in f ==> q[Name(MinLengthFilter)] == f[MinLengthFilter];
    assert MaxLengthFilter in f ==> q[Name(MaxLengthFilter)] == f[MaxLengthFilter];
  }

  /** The only filters the parser can produce. */
  const ParserKeys: set<Filter> := {WordCountFilter, IsPalindromeFilter, MinLengthFilter, ContainsCharacterFilter}

  /** What the parser returns, filter by filter: `word_count` from "single
      word"/"one word"; `is_palindrome` from "palindrome"/"palindromic" or
      "first vowel"; `min_length` one above the number in the leftmost
      length phrase; `contains_character` from the leftmost letter phrase,
      else "a" for "first vowel". It never returns `max_length`, so the
      conflict check never throws. */
  lemma {:induction false} ParsedFilters(query: string)
    ensures var t := Normalize(query);
            var r := ParseNaturalLanguageQuery(query);
            r.Success? && RulesOutcome(t, r.value)
  {
    var t := Normalize(query);
    RulesProduce(t);
  }

  /** The outcome of the rule table, filter by filter. */
  predicate RulesOutcome(t: string, f: Filters) {
    && f.Keys <= ParserKeys
    && WordCountOutcome(t, f)
    && PalindromeOutcome(t, f)
    && MinLengthOutcome(t, f)
    && CharacterOutcome(t, f)
  }

  predicate WordCountOutcome(t: string, f: Filters) {
    && (WordCountFilter in f <==> MentionsOneWord(t))
    && (WordCountFilter in f ==> f[WordCountFilter] == "1")
  }

  predicate PalindromeOutcome(t: string, f: Filters) {
    && (IsPalindromeFilter in f <==> MentionsPalindrome(t) || MentionsFirstVowel(t))
    && (IsPalindromeFilter in f ==> f[IsPalindromeFilter] == "true")
  }

  predicate MinLengthOutcome(t: string, f: Filters) {
    && (MinLengthFilter in f <==> FirstLengthPhrase(t).Some?)
    && (MinLengthFilter in f ==> f[MinLengthFilter] == IntToString(LengthBound(t)))
  }

  predicate CharacterOutcome(t: string, f: Filters) {
    && (ContainsCharacterFilter in f <==> MentionsFirstVowel(t) || FirstLetterPhrase(t).Some?)
    && (ContainsCharacterFilter in f ==>
          f[ContainsCharacterFilter] == if FirstLetterPhrase(t).Some? then [FirstLetterPhrase(t).value] else "a")
  }

  lemma {:induction false} RulesProduce(t: string)
    ensures RulesOutcome(t, ApplyRules(t))
  {
    WordCountRule(t);
    PalindromeRule(t);
    MinLengthRule(t);
    CharacterRule(t);
  }

  lemma {:induction false} WordCountRule(t: string)
    ensures WordCountOutcome(t, ApplyRules(t))
  {
    TableUnrolled(t);
  }

  lemma {:induction false} PalindromeRule(t: string)
    ensures PalindromeOutcome(t, ApplyRules(t))
  {
    TableUnrolled(t);
  }

  lemma {:induction false} MinLengthRule(t: string)
    ensures MinLengthOutcome(t, ApplyRules(t))
  {
    TableUnrolled(t);
    var f1 := Fire(OneWordTrigger, t, map[]);
    var f2 := Fire(PalindromeTrigger, t, f1);
    var f3 := Fire(LengthTrigger, t, f2);
    var f4 := Fire(FirstVowelTrigger, t, f3);
    FireKeepsMinLength(OneWordTrigger, t, map[]);
    FireKeepsMinLength(PalindromeTrigger, t, f1);
    LengthTriggerOutcome(t, f2);
    FireKeepsMinLength(FirstVowelTrigger, t, f3);
    FireKeepsMinLength(LetterTrigger, t, f4);
  }

  /** Only the length trigger writes `min_length`. */
  lemma {:induction false} FireKeepsMinLength(trigger: Trigger, t: string, f: Filters)
    requires trigger != LengthTrigger
    ensures var g := Fire(trigger, t, f);
            && (MinLengthFilter in g <==> MinLengthFilter in f)
            && (MinLengthFilter in f ==> g[MinLengthFilter] == f[MinLengthFilter])
  {
  }

  /** Fired on filters without `min_length`, the length trigger sets it
      exactly when there is a length phrase, to the successor of the
      leftmost phrase's number. */
  lemma {:induction false} LengthTriggerOutcome(t: string, f: Filters)
    requires MinLengthFilter !in f
    ensures MinLengthOutcome(t, Fire(LengthTrigger, t, f))
  {
    var d := FirstLengthPhrase(t);
    if d.Some? {
      ParseIntOfDigits(d.value);
    }
  }

  lemma {:induction false} CharacterRule(t: string)
    ensures CharacterOutcome(t, ApplyRules(t))
  {
    TableUnrolled(t);
  }

  /** Text that triggers no rule gives the empty filter map (no error), and
      any trigger gives a non-empty one. */
  lemma {:induction false} EmptyIffNothingTriggers(query: string)
    ensures var t := Normalize(query);
            ParseNaturalLanguageQuery(query) == Success(map[])
            <==> !MentionsOneWord(t) && !MentionsPalindrome(t) && FirstLengthPhrase(t).None?
                 && !MentionsFirstVowel(t) && FirstLetterPhrase(t).None?
  {
    ParsedFilters(query);
    EmptyOutcome(Normalize(query), ParseNaturalLanguageQuery(query).value);
  }

  lemma {:induction false} EmptyOutcome(t: string, f: Filters)
    requires RulesOutcome(t, f)
    ensures f == map[] <==> !MentionsOneWord(t) && !MentionsPalindrome(t) && FirstLengthPhrase(t).None?
                            && !MentionsFirstVowel(t) && FirstLetterPhrase(t).None?
  {
    if MentionsOneWord(t) {
      assert WordCountFilter in f;
    }
    if f != map[] {
      var g :| g in f;
      assert g in ParserKeys;
    }
  }

  /** The parser ignores the case of ASCII letters. */
  lemma {:induction false} ParserIgnoresAsciiCase(a: string, b: string)
    requires SameUpToAsciiCase(a, b)
    ensures ParseNaturalLanguageQuery(a) == ParseNaturalLanguageQuery(b)
  {
    ToLowerIgnoresAsciiCase(a, b);
  }

  /** "first vowel" asks for palindromes containing `a`, but a letter phrase
      anywhere in the text replaces the `a`. */
  lemma {:induction false} LetterPhraseOverridesFirstVowel(query: string, x: char)
    requires MentionsFirstVowel(Normalize(query))
    requires FirstLetterPhrase(Normalize(query)) == Some(x)
    ensures var r := ParseNaturalLanguageQuery(query);
            && r.Success?
            && IsPalindromeFilter in r.value && r.value[IsPalindromeFilter] == "true"
            && ContainsCharacterFilter in r.value && r.value[ContainsCharacterFilter] == [x]
  {
    var t := Normalize(query);
    var f := ParseNaturalLanguageQuery(query).value;
    ParsedFilters(query);
    assert RulesOutcome(t, f);
  }

  /** Each value the rule table produces is one the builder accepts. */
  lemma {:induction false} OutcomeAccepted(t: string, f: Filters)
    requires RulesOutcome(t, f)
    ensures forall g :: g in f ==> Accepts(g, f[g])
  {
    forall g | g in f
      ensures Accepts(g, f[g])
    {
      if g == WordCountFilter {
        ParseIntRoundTrip(1);
        assert IntToString(1) == "1";
      } else if g == MinLengthFilter {
        ParseIntRoundTrip(LengthBound(t));
        assert IntToString(LengthBound(t)) != "";
      }
    }
  }

  /** Every filter the parser produces is one the builder accepts, so the
      builder echoes all of them. */
  lemma {:induction false} ParsedFiltersAreAccepted(query: string)
    ensures var r := ParseNaturalLanguageQuery(query);
            && r.Success?
            && forall g :: g in r.value <==> g in BuildWhereClause(AsQuery(r.value)).filtersApplied
  {
    ParsedFilters(query);
    var f := ParseNaturalLanguageQuery(query).value;
    OutcomeAccepted(Normalize(query), f);
    var q := AsQuery(f);
    assert forall g :: g in f ==> q[Name(g)] == f[g];
  }

  /** The built clause echoes `min_length` as `m` and has no
      `max_length`. */
  predicate OnlyMinimum(built: WhereClause, m: int) {
    && MinLengthFilter in built.filtersApplied
    && built.filtersApplied[MinLengthFilter] == IntValue(m)
    && MaxLengthFilter !in built.filtersApplied
  }

  /** A request whose `min_length` is the rendering of `m` and which has
      no `max_length` echoes `m` as its only bound. */
  lemma {:induction false} MinimumEchoed(q: Query, m: int)
    requires Name(MinLengthFilter) in q && q[Name(MinLengthFilter)] == IntToString(m)
    requires Name(MaxLengthFilter) !in q
    ensures OnlyMinimum(BuildWhereClause(q), m)
  {
    ParseIntRoundTrip(m);
    assert IntToString(m) != "";
  }

  /** The same request, built as intended, only selects records of length
      at least `m`. */
  lemma {:induction false} MinimumOnly(q: Query, m: int, p: Analyzer.StringProperties)
    requires Name(MinLengthFilter) in q && q[Name(MinLengthFilter)] == IntToString(m)
    requires Name(MaxLengthFilter) !in q
    ensures var built := BuildIntendedWhereClause(q);
            && OnlyMinimum(built, m)
            && (MatchesWhere(p, built.where) ==> p.length >= m)
  {
    MinimumEchoed(q, m);
    IntendedWhereMeansFilters(p, q);
  }

  /** "longer than N characters" becomes `min_length` N + 1 with no upper
      bound, so every record the intended clause selects is strictly longer
      than N. */
  lemma {:induction false} LongerThanMeansStrictlyLonger(query: string, p: Analyzer.StringProperties)
    requires FirstLengthPhrase(Normalize(query)).Some?
    ensures var r := ParseNaturalLanguageQuery(query);
            && r.Success?
            && OnlyMinimum(BuildIntendedWhereClause(AsQuery(r.value)), LengthBound(Normalize(query)))
            && (MatchesWhere(p, BuildIntendedWhereClause(AsQuery(r.value)).where) ==> p.length > PhraseNumber(Normalize(query)))
  {
    ParsedFilters(query);
    LongerThanOutcome(Normalize(query), ParseNaturalLanguageQuery(query).value, p);
  }

  lemma {:induction false} LongerThanOutcome(t: string, f: Filters, p: Analyzer.StringProperties)
    requires MinLengthOutcome(t, f) && MaxLengthFilter !in f && FirstLengthPhrase(t).Some?
    ensures OnlyMinimum(BuildIntendedWhereClause(AsQuery(f)), LengthBound(t))
    ensures MatchesWhere(p, BuildIntendedWhereClause(AsQuery(f)).where) ==> p.length > PhraseNumber(t)
  {
    MinimumRequested(f, LengthBound(t), p);
  }

  /** Filters with `min_length` the rendering of `m` and no `max_length`,
      built as intended, select only records of length at least `m`. */
  lemma {:induction false} MinimumRequested(f: Filters, m: int, p: Analyzer.StringProperties)
    requires MinLengthFilter in f && f[MinLengthFilter] == IntToString(m)
    requires MaxLengthFilter !in f
    ensures OnlyMinimum(BuildIntendedWhereClause(AsQuery(f)), m)
    ensures MatchesWhere(p, BuildIntendedWhereClause(AsQuery(f)).where) ==> p.length >= m
  {
    MinimumOnly(AsQuery(f), m, p);
  }

  /** As the builder is written, "longer than N characters" is echoed as
      `min_length` N + 1 but not enforced: a record passes exactly when the
      same record of length 0 would. */
  lemma {:induction false} LongerThanNotEnforced(query: string, p: Analyzer.StringProperties)
    requires FirstLengthPhrase(Normalize(query)).Some?
    ensures var r := ParseNaturalLanguageQuery(query);
            && r.Success?
            && OnlyMinimum(BuildWhereClause(AsQuery(r.value)), LengthBound(Normalize(query)))
            && (MatchesWhere(p, BuildWhereClause(AsQuery(r.value)).where) <==>
                MatchesWhere(p.(length := 0), BuildWhereClause(AsQuery(r.value)).where))
  {
    ParsedFilters(query);
    LongerThanOutcomeAsWritten(Normalize(query), ParseNaturalLanguageQuery(query).value, p);
  }

  lemma {:induction false} LongerThanOutcomeAsWritten(t: string, f: Filters, p: Analyzer.StringProperties)
    requires MinLengthOutcome(t, f) && MaxLengthFilter !in f && FirstLengthPhrase(t).Some?
    ensures OnlyMinimum(BuildWhereClause(AsQuery(f)), LengthBound(t))
    ensures MatchesWhere(p, BuildWhereClause(AsQuery(f)).where) <==>
            MatchesWhere(p.(length := 0), BuildWhereClause(AsQuery(f)).where)
  {
    var q := AsQuery(f);
    assert q[Name(MinLengthFilter)] == IntToString(LengthBound(t));
    MinimumEchoed(q, LengthBound(t));
    LengthNeverConstrains(q, p, 0);
  }

  /** "containing the letter x" selects only records whose frequency map
      has an entry for `x`. */
  lemma {:induction false} LetterPhraseMeansContains(query: string, x: char, p: Analyzer.StringProperties)
    requires FirstLetterPhrase(Normalize(query)) == Some(x)
    ensures var r := ParseNaturalLanguageQuery(query);
            && r.Success?
            && ContainsCharacterFilter in BuildWhereClause(AsQuery(r.value)).filtersApplied
            && BuildWhereClause(AsQuery(r.value)).filtersApplied[ContainsCharacterFilter] == CharValue(x)
            && (MatchesWhere(p, BuildWhereClause(AsQuery(r.value)).where) ==> x in p.characterFrequencyMap)
  {
    ParsedFilters(query);
    var f := ParseNaturalLanguageQuery(query).value;
    assert ContainsCharacterFilter in f && f[ContainsCharacterFilter] == [x];
    var q := AsQuery(f);
    assert q[Name(ContainsCharacterFilter)] == [x];
    CharacterRequested(q, x, p);
  }
}
