# String analyzer, filter builder and natural-language parser in Dafny

This project models the three pure functions at the heart of a small
string-analysis service (`utils/stringHelpers.js`):

- `analyzeString` computes the property record stored for a text:
  - length;
  - the palindrome flag, taken after lower-casing and dropping everything but `a`..`z` and `0`..`9`;
  - the number of distinct characters;
  - the word count, taken after trimming and splitting on whitespace runs;
  - the SHA-256 digest;
  - the character frequency map.
- `buildWhereClause` turns request properties into typed constraints on the stored properties. It also returns `filtersApplied`, an echo of the parsed values. A value it cannot parse is dropped.
  - The length bounds are collected in an object keyed by the operator symbols `Op.gte` and `Op.lte`.
  - `Object.keys` lists no symbol keys, so that object always looks empty and the length range never reaches `where`.
  - `where` is therefore `null` exactly when nothing but `min_length`/`max_length` was accepted.
  - The model builds the clause both as written (`BuildWhereClause`) and as evidently intended (`BuildIntendedWhereClause`). See "## Findings".
- `parseNaturalLanguageQuery` lower-cases and trims a sentence. It then runs five phrase triggers in order, later ones overwriting earlier ones, and returns a string-valued filter map for `buildWhereClause`. Its final check is meant to throw when `min_length` exceeds `max_length`.

Modules follow the structure of the code:

- `Wrappers` holds `Option` and `Result`.
- `Text` models the JavaScript string built-ins the code relies on:
  - `trim` and `trimStart`, with the whitespace set of `\s`;
  - `toLowerCase`;
  - `includes`.
- `Numbers` models `parseInt` without a radix and `Number.prototype.toString` on integers.
- `Words` models `split(/\s+/).filter(Boolean)`, with an independent count of maximal non-whitespace runs.
- `Analyzer` models `analyzeString`.
- `FilterBuilder` models `buildWhereClause`. The `where` clause is a map from a `Column` datatype to a `Condition`, in place of Sequelize's path strings and `Op` symbols. It also carries the meaning of a clause: which stored records it selects.
- `NaturalLanguage` models `parseNaturalLanguageQuery` as an ordered trigger table. It also proves what the parser and the builder do together.

The code behaves in ways its comments and names do not announce:

- The empty text, and any text with no character that lower-cases to an ASCII letter or digit (ASCII letters and digits, the Kelvin sign U+212A, capital I with dot U+0130), is a palindrome (`Analyzer.NothingToCompareIsPalindrome`).
- An unparseable filter value is silently dropped rather than rejected (`FilterBuilder.RejectedValueIsDropped`).
- `parseInt` accepts leading whitespace, a sign, leading zeros, trailing junk and a `0x` prefix, in decimal and hexadecimal alike (`Numbers.ParseIntReadsDecimal`, `Numbers.ParseIntReadsHex`).
- A sentence that triggers nothing gives `{}` rather than an error (`NaturalLanguage.EmptyIffNothingTriggers`).
- "not palindromic" is not recognised, so there is no contradiction error.
- The min/max conflict check can never fire, because the parser never produces `max_length` (`NaturalLanguage.ParseNaturalLanguageQuery`).
- The whitespace `trim` and `\s` use is the full JavaScript set, not only ASCII.
- The length bounds are echoed but never constrain the clause (`FilterBuilder.LengthNeverConstrains`).

## Model

| member | source | states |
|---|---|---|
| Text.TrimStart | utils/stringHelpers.js:65-66 | the leading whitespace `parseInt` skips: the result is a suffix, everything dropped is whitespace, and the result does not start with whitespace |
| Text.TrimStartSkipsSpace | utils/stringHelpers.js:65-66 | whitespace in front of text that starts with something else is exactly what is skipped |
| Text.Trim | utils/stringHelpers.js:23-24 | `trim` keeps the slice between the leading and the trailing whitespace: both dropped ends are whitespace, the result is empty exactly when the text is all whitespace, and a non-empty result neither starts nor ends with whitespace |
| Text.TrimKeepsLowerCase | utils/stringHelpers.js:113 | trimming lower-cased text brings back no ASCII capital |
| Text.ToLowerLeavesNoCapital | utils/stringHelpers.js:113 | no ASCII capital survives `toLowerCase` |
| Text.ToLowerOfLowerCase | utils/stringHelpers.js:14 | text with nothing to lower-case is returned unchanged |
| Text.ToLowerIgnoresAsciiCase | utils/stringHelpers.js:113 | two texts that differ only in the case of ASCII letters lower-case to the same text |
| Text.ToLowerAppend | utils/stringHelpers.js:14 | the model's lower-casing works character by character: lower-casing a concatenation concatenates the lower-cased parts |
| Text.Includes | utils/stringHelpers.js:117 | `includes` of the empty pattern always holds, and a pattern that is found is no longer than the text |
| Text.IncludesIffOccurs | utils/stringHelpers.js:117 | `includes(pattern)` holds exactly when the pattern occurs at some position of the text |
| Text.Reverse | utils/stringHelpers.js:15 | `split('').reverse().join('')` has the same length, and position i holds the character at position length-1-i |
| Numbers.DigitPrefix | utils/stringHelpers.js:65-66 | `parseInt` reads the longest prefix of digits of the radix: the result is a prefix, all digits, and the next character is not a digit |
| Numbers.ReadDigits | utils/stringHelpers.js:65 | after the sign and radix prefix, `parseInt` gives a number exactly when the text starts with a digit of the radix, and `NaN` otherwise |
| Numbers.ParseInt | utils/stringHelpers.js:65 | `parseInt` only gives a number for text that holds a decimal digit |
| Numbers.ParseIntIffNumberStarts | utils/stringHelpers.js:65 | `parseInt` gives a number exactly when, right after the leading whitespace and an optional sign, there is a decimal digit or `0x`/`0X` followed by a hexadecimal digit; a negative result needs a minus sign there |
| Numbers.ParseIntOfNonNumericStart | utils/stringHelpers.js:65 | text whose first non-whitespace character is neither a sign nor a digit parses to `NaN`, whatever follows ("abc5"), so such a value is dropped |
| Numbers.ParseIntReadsDecimal | utils/stringHelpers.js:65-66 | leading whitespace, an optional sign, decimal digits with leading zeros allowed, then anything that does not continue the number, parse to the signed value of the digits ("  -007px" reads as -7) |
| Numbers.NatToString | utils/stringHelpers.js:128 | `toString` of a non-negative integer is a non-empty decimal digit string whose value is the integer, and it starts with `0` only when it is "0" |
| Numbers.ParseIntOfDigits | utils/stringHelpers.js:128 | `parseInt` of a plain decimal digit string is the digits' decimal value |
| Numbers.ParseIntRoundTrip | utils/stringHelpers.js:128 | `parseInt(String(i)) == i` for every integer i, so the builder reads back the number the parser rendered |
| Numbers.ParseIntIgnoresSuffix | utils/stringHelpers.js:65-66 | a rendered number followed by a non-digit (other than `x`/`X` after a lone 0) parses to that number: "5abc" reads as 5 |
| Numbers.ParseIntNeedsDigit | utils/stringHelpers.js:65 | text with no decimal digit parses to `NaN`, so `!isNaN(parseInt(v))` rejects it |
| Numbers.ParseIntReadsHex | utils/stringHelpers.js:65-66 | leading whitespace, an optional sign, a `0x`/`0X` prefix, hexadecimal digits, then anything that does not continue them, parse to the signed base-16 value of the digits ("  -0x1Fpx" reads as -31, "0x1A" as 26) |
| Words.PiecesHaveNoWhitespace | utils/stringHelpers.js:23 | `split(/\s+/)` gives at least one piece, and no piece holds whitespace |
| Words.NonEmptyPieces | utils/stringHelpers.js:23 | `filter(Boolean)` leaves only non-empty pieces |
| Words.NonEmptyPiecesKeepsNonEmpty | utils/stringHelpers.js:23 | `filter(Boolean)` keeps every non-empty piece as often as it occurs, and drops exactly the empty ones |
| Words.PiecesAreRuns | utils/stringHelpers.js:23 | the non-empty pieces of `split(/\s+/)` are as many as the maximal non-whitespace runs |
| Words.RunsOfTrim | utils/stringHelpers.js:23 | trimming first never changes the number of runs |
| Words.NoRunsIffAllSpace | utils/stringHelpers.js:24 | there are no runs exactly when the text is all whitespace |
| Words.RunsBound | utils/stringHelpers.js:23-24 | there are never more runs than characters |
| Words.WordCount | utils/stringHelpers.js:23-24 | `word_count` equals the number of maximal non-whitespace runs, is 0 exactly when the trimmed text is empty, and never exceeds the length |
| Analyzer.KeepLowerAlphanumerics | utils/stringHelpers.js:14 | `replace(/[^a-z0-9]/g, '')` keeps only ASCII lower-case letters and digits and never lengthens the text |
| Analyzer.KeepExactlyLowerAlphanumerics | utils/stringHelpers.js:14 | every `a`..`z`/`0`..`9` character is kept as often as it occurs and every other character is dropped; text made only of them is kept whole |
| Analyzer.KeepAppend | utils/stringHelpers.js:14 | the filter works character by character, in order: filtering a concatenation concatenates the filtered parts |
| Analyzer.KeyOfAppend | utils/stringHelpers.js:14 | the palindrome key of a concatenation is the concatenation of the keys |
| Analyzer.EmptyKeyIffNothingCounts | utils/stringHelpers.js:14 | the palindrome key is empty exactly when no character is an ASCII letter or digit (or the Kelvin sign or capital I with dot) |
| Analyzer.IsPalindrome | utils/stringHelpers.js:14-16 | a key of at most one character always passes `cleaned === reversed` |
| Analyzer.PalindromeIffMirrored | utils/stringHelpers.js:14-16 | `cleaned === reversed` holds exactly when the key reads the same from both ends |
| Analyzer.NothingToCompareIsPalindrome | utils/stringHelpers.js:14-16 | the empty text, and any text with no character that lower-cases to an ASCII letter or digit, is a palindrome |
| Analyzer.PalindromeIgnoresAsciiCase | utils/stringHelpers.js:14 | changing the case of ASCII letters never changes `is_palindrome` |
| Analyzer.PalindromeIgnoresPunctuation | utils/stringHelpers.js:14-16 | inserting a character that is not kept (a space, a comma) never changes `is_palindrome` |
| Analyzer.CharSetBound | utils/stringHelpers.js:19-20 | there are never more distinct characters than characters |
| Analyzer.FrequencyMap | utils/stringHelpers.js:30-33 | the counting loop maps exactly the characters of the text, each to its number of occurrences (multiset count) |
| Analyzer.SumOfCountsIncrement | utils/stringHelpers.js:32 | one `(map[char] \|\| 0) + 1` step adds one to the total of the counts |
| Analyzer.FrequenciesSumToLength | utils/stringHelpers.js:30-33 | the counts of the frequency map add up to the length of the text |
| Analyzer.AnalyzeString | utils/stringHelpers.js:9-43 | the record's length, palindrome flag (key mirrored), frequency map (keys are the characters, values the occurrence counts, summing to the length), distinct-character count (the map's size, at most the length), word count (the run count, 0 exactly when the trimmed text is empty) and digest (the given hash of the text) |
| FilterBuilder.Accepts | utils/stringHelpers.js:55-91 | an accepted raw value is never empty, and an accepted numeric value holds a decimal digit |
| FilterBuilder.Parsed | utils/stringHelpers.js:55-96 | an accepted value parses to a boolean for `is_palindrome`, a character for `contains_character` and an integer for the three numeric filters |
| FilterBuilder.LengthBounds | utils/stringHelpers.js:61-76 | the length range has `gte` exactly when `min_length` is echoed and `lte` exactly when `max_length` is, with the echoed values |
| FilterBuilder.Constraints | utils/stringHelpers.js:54-98 | with no symbol key listed by `Object.keys`, the constraints match the echo without its length bounds; with one key per bound, they match the whole echo: one column per echoed filter, carrying its value |
| FilterBuilder.SourceConstraints | utils/stringHelpers.js:62-104 | as written, the constraints never hold the length column, and they are empty exactly when the echo holds nothing but length bounds |
| FilterBuilder.BuildWhereClause | utils/stringHelpers.js:50-105 | a filter is echoed exactly when its property is present and valid, with its parsed value; `where` is `null` exactly when nothing but length bounds is echoed; otherwise it has no length column and matches the rest of the echo |
| FilterBuilder.BuildIntendedWhereClause | utils/stringHelpers.js:50-105 | built as evidently intended: the same echo, `where` is `null` exactly when nothing is echoed, and otherwise it matches the whole echo, length range included |
| FilterBuilder.ConstraintsMeanEcho | utils/stringHelpers.js:54-98 | constraints that match an echo select exactly the records the echoed values describe |
| FilterBuilder.WhereMeansFilters | utils/stringHelpers.js:50-105 | as written, a record passes the clause exactly when it meets every echoed filter other than the two length bounds (a `null` clause lets everything through) |
| FilterBuilder.LengthNeverConstrains | utils/stringHelpers.js:62-81 | as written, changing a record's length never changes whether it passes the clause |
| FilterBuilder.MinLengthOnlyGivesNullWhere | utils/stringHelpers.js:64-104 | `{min_length: "5"}` is echoed as `{min_length: 5}` but gives a `null` clause |
| FilterBuilder.SingleFilterEcho | utils/stringHelpers.js:52-98 | a request carrying one accepted filter echoes exactly that filter with its parsed value |
| FilterBuilder.IntendedWhereMeansFilters | utils/stringHelpers.js:50-105 | the intended clause selects exactly the records that meet every echoed filter, length bounds included |
| FilterBuilder.RejectedValueIsDropped | utils/stringHelpers.js:54-98 | a value that fails its test (a non-numeric length, a multi-character `contains_character`, "TRUE") gives the same result as leaving the property out; no error is raised |
| FilterBuilder.UnrecognizedKeysIgnored | utils/stringHelpers.js:50-105 | request properties other than the five filter names never affect the result |
| FilterBuilder.CrossedBoundsSelectNothing | utils/stringHelpers.js:64-76 | the builder accepts `min_length` above `max_length` and echoes both; the intended clause then selects no record |
| FilterBuilder.PalindromeRequested | utils/stringHelpers.js:55-59 | `is_palindrome` "true"/"false" is echoed as the matching boolean, and the clause then selects only records with that flag |
| FilterBuilder.WordCountRequested | utils/stringHelpers.js:84-88 | a `word_count` of n followed by text that does not continue the number is echoed as n, and the clause then selects only records with n words |
| FilterBuilder.CharacterRequested | utils/stringHelpers.js:91-98 | a one-character `contains_character` is echoed as that character, and the clause then selects only records whose frequency map has it |
| NaturalLanguage.Normalize | utils/stringHelpers.js:113 | `toLowerCase().trim()` leaves no ASCII capital and no whitespace at either end |
| NaturalLanguage.LengthPhraseAt | utils/stringHelpers.js:125 | a length-phrase match captures a non-empty string of decimal digits |
| NaturalLanguage.LengthPhraseSound | utils/stringHelpers.js:125 | a length-phrase match means "longer than " or "greater than ", the captured digits and " character" really start the text |
| NaturalLanguage.FirstLengthPhrase | utils/stringHelpers.js:125-126 | the leftmost length-phrase match captures a non-empty string of decimal digits |
| NaturalLanguage.LetterPhraseAt | utils/stringHelpers.js:138 | a letter-phrase match captures one letter `a`..`z` |
| NaturalLanguage.LetterPhraseSound | utils/stringHelpers.js:138 | a letter-phrase match means "containing the letter " followed by the captured letter really starts the text |
| NaturalLanguage.FirstLetterPhrase | utils/stringHelpers.js:138-139 | the leftmost letter-phrase match captures one letter `a`..`z` |
| NaturalLanguage.LengthPhraseLeftmost | utils/stringHelpers.js:125 | `match` reports the length phrase at the leftmost position where it matches |
| NaturalLanguage.NoLengthPhrase | utils/stringHelpers.js:125-126 | there is no length match exactly when the pattern matches at no position |
| NaturalLanguage.LetterPhraseLeftmost | utils/stringHelpers.js:138 | `match` reports the letter phrase at the leftmost position where it matches |
| NaturalLanguage.NoLetterPhrase | utils/stringHelpers.js:138-139 | there is no letter match exactly when the pattern matches at no position |
| NaturalLanguage.LengthPhraseCapturesDigits | utils/stringHelpers.js:125 | both "longer than D character..." and "greater than D character..." match and capture all of D, for every non-empty digit string D |
| NaturalLanguage.LetterPhraseCapturesLetter | utils/stringHelpers.js:138 | "containing the letter x" matches and captures x, for every letter x in `a`..`z` |
| NaturalLanguage.SuccessorText | utils/stringHelpers.js:128 | parsing `(parseInt(d) + 1).toString()` gives the successor of `parseInt(d)`, and `NaN` when that was `NaN` |
| NaturalLanguage.Fire | utils/stringHelpers.js:117-141 | a trigger only ever adds filters the parser knows (`word_count`, `is_palindrome`, `min_length`, `contains_character`) |
| NaturalLanguage.FireAll | utils/stringHelpers.js:116-141 | running triggers one after another only ever adds those four filters |
| NaturalLanguage.ApplyRules | utils/stringHelpers.js:114-141 | the trigger table produces only the four parser filters, never `max_length` |
| NaturalLanguage.TableUnrolled | utils/stringHelpers.js:116-141 | the table fires its five triggers once each, in source order |
| NaturalLanguage.ParseNaturalLanguageQuery | utils/stringHelpers.js:143-148 | the parser always returns filters and never throws, and they never hold `max_length`, so the conflict check cannot fire |
| NaturalLanguage.ConflictMeansCrossedBounds | utils/stringHelpers.js:144 | the conflict check fires exactly when building the same filters would echo both bounds with `min_length` above `max_length` |
| NaturalLanguage.WordCountRule | utils/stringHelpers.js:117-119 | `word_count` is "1" exactly when the text mentions "single word" or "one word" |
| NaturalLanguage.PalindromeRule | utils/stringHelpers.js:120-135 | `is_palindrome` is "true" exactly when the text mentions "palindrome"/"palindromic" or "first vowel" |
| NaturalLanguage.FireKeepsMinLength | utils/stringHelpers.js:117-141 | no trigger but the length trigger touches `min_length` |
| NaturalLanguage.LengthTriggerOutcome | utils/stringHelpers.js:125-129 | the length trigger sets `min_length` exactly when a length phrase matches, to the rendering of its number plus one |
| NaturalLanguage.MinLengthRule | utils/stringHelpers.js:125-129 | `min_length` is present exactly when a length phrase matches, and is then the rendering of its number plus one |
| NaturalLanguage.CharacterRule | utils/stringHelpers.js:132-141 | `contains_character` is present exactly when the text mentions "first vowel" or a letter phrase matches; the leftmost letter phrase's letter wins over "a" |
| NaturalLanguage.RulesProduce | utils/stringHelpers.js:114-141 | the filters the table produces, filter by filter |
| NaturalLanguage.ParsedFilters | utils/stringHelpers.js:112-149 | every query parses without error to exactly those filters, computed on the lower-cased, trimmed text |
| NaturalLanguage.EmptyOutcome | utils/stringHelpers.js:114-141 | the filters are empty exactly when no trigger fires |
| NaturalLanguage.EmptyIffNothingTriggers | utils/stringHelpers.js:112-149 | unrecognised text gives `{}`, not an error, and any recognised phrase gives a non-empty map |
| NaturalLanguage.ParserIgnoresAsciiCase | utils/stringHelpers.js:113 | queries that differ only in the case of ASCII letters parse to the same result |
| NaturalLanguage.LetterPhraseOverridesFirstVowel | utils/stringHelpers.js:132-141 | with both "first vowel" and "containing the letter x", the result has `is_palindrome` "true" and `contains_character` x, not "a" |
| NaturalLanguage.OutcomeAccepted | utils/stringHelpers.js:117-141 | every value the table produces passes the builder's test for its filter |
| NaturalLanguage.ParsedFiltersAreAccepted | utils/stringHelpers.js:112-149 | building a clause from the parser's output echoes exactly the filters the parser produced: none is dropped |
| NaturalLanguage.MinimumEchoed | utils/stringHelpers.js:64-76 | a request with `min_length` the rendering of m and no `max_length` echoes m as its only bound |
| NaturalLanguage.MinimumOnly | utils/stringHelpers.js:64-81 | the same request, built as intended, selects only records of length at least m |
| NaturalLanguage.MinimumRequested | utils/stringHelpers.js:64-81 | the same for a string-valued filter map before it becomes request properties |
| NaturalLanguage.LongerThanOutcomeAsWritten | utils/stringHelpers.js:125-129 | filters from a "longer than N characters" text are echoed as `min_length` N + 1 with no upper bound, yet a record passes the clause as written exactly when the same record of length 0 would |
| NaturalLanguage.LongerThanNotEnforced | utils/stringHelpers.js:125-129 | for any query whose leftmost length phrase says N, the clause as written echoes `min_length` N + 1 but does not enforce it |
| NaturalLanguage.LongerThanOutcome | utils/stringHelpers.js:125-129 | filters from a "longer than N characters" text, built as intended, give `min_length` N + 1 with no upper bound and select only records longer than N |
| NaturalLanguage.LongerThanMeansStrictlyLonger | utils/stringHelpers.js:125-129 | for any query whose leftmost length phrase says N, the intended clause selects only records strictly longer than N |
| NaturalLanguage.LetterPhraseMeansContains | utils/stringHelpers.js:138-141 | for any query whose leftmost letter phrase names x, the built clause selects only records containing x |

## Findings

| source | as written | input that shows it | evidently intended | confidence | as-written member | corrected member |
|---|---|---|---|---|---|---|
| utils/stringHelpers.js:79-81 | `lengthFilter` is keyed by the symbols `Op.gte`/`Op.lte`, which `Object.keys` does not list, so the length range is never added to `where` | `{min_length: "5"}` gives `where` `null` with `filtersApplied` `{min_length: 5}`; "strings longer than 10 characters" then selects texts of every length | the range reaches `where` whenever a bound is echoed, and `where` is `null` only when nothing is echoed | high; not executed | FilterBuilder.MinLengthOnlyGivesNullWhere | FilterBuilder.BuildIntendedWhereClause |

## Left out

- The SHA-256 digest (line 27) is a call into Node's crypto library. `AnalyzeString` takes the digest function as a parameter and states only that `sha256Hash` is its value on the text.
- Strings are sequences of Dafny `char`. One character stands for one UTF-16 code unit and one code point, so texts outside the Basic Multilingual Plane are not modelled. For such texts `length`, `split('')` and `contains_character.length` count code units while `for...of` counts code points.
- Text.ToLower: models `toLowerCase` for ASCII `A`..`Z`, the Kelvin sign (to `k`) and capital I with dot (to `i` plus a combining dot). Every other character is left unchanged, and each character is lowered on its own: the context-dependent final sigma rule of `toLowerCase` is not modelled. The other non-ASCII lower-case forms are themselves non-ASCII, so none of the three uses (the palindrome key, the trigger phrases, the letter capture) can see the difference.
- Numbers.ParseInt: numbers are unbounded integers. IEEE double rounding above 2^53, `Infinity` and `-0` are not modelled, and neither is `toString`'s exponent form at 1e21 and above.
- NaturalLanguage.LongerThanMeansStrictlyLonger: holds for unbounded integers. In the code, once `parseInt(d) + 1` reaches 1e21 as a double (already for the 21-digit N = 999999999999999999999), `toString` renders it in exponent form, such as "1e+21", which `parseInt` in the builder then misreads as 1; below that, doubles above 2^53 also round.
- Request property values are strings. Express can also deliver arrays and objects for repeated or bracketed parameters; those are not modelled.
- The Sequelize `where` object is modelled by its meaning: `Column` and `Condition` values, and which records it selects (`MatchesWhere`). The JSON path strings are not modelled. Of the `Op` symbols, only the one fact that `Object.keys` does not list them is kept (`FilterBuilder.LengthKeyCount`).
- The regular expressions are modelled as the two phrase matchers they amount to, not as a general regex engine.
- The controllers, routes, models, database configuration and HTTP status mapping are outside this model.
