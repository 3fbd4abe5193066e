/** `buildWhereClause`: turns a string-valued filter map into typed
    constraints on the stored properties, plus an echo of the parsed
    values. */
module FilterBuilder {
  import opened Wrappers
  import opened Numbers
  import opened Analyzer

  /** Request parameters: property name to raw text. */
  type Query = map<string, string>

  /** The five filters the builder recognizes. */
  datatype Filter = IsPalindromeFilter | MinLengthFilter | MaxLengthFilter | WordCountFilter | ContainsCharacterFilter

  /** The request property that carries a filter. */
  function Name(f: Filter): string {
    match f
    case IsPalindromeFilter => "is_palindrome"
    case MinLengthFilter => "min_length"
    case MaxLengthFilter => "max_length"
    case WordCountFilter => "word_count"
    case ContainsCharacterFilter => "contains_character"
  }

  predicate IsRecognized(key: string) {
    exists f :: Name(f) == key
  }

  /** A property the storage layer can be asked about; `FrequencyEntry(c)`
      is the entry of `c` in the character frequency map. */
  datatype Column = PalindromeColumn | LengthColumn | WordCountColumn | FrequencyEntry(ch: char)

  /** The comparison operators of a length range. */
  datatype Op = Gte | Lte

  /** A parsed filter value. */
  datatype Scalar = BoolValue(b: bool) | IntValue(n: int) | CharValue(c: char)

  /** A constraint on one column: equality, a `>=`/`<=` range, or "the
      entry is not null", i.e. the key is present. */
  datatype Condition = Eq(value: Scalar) | Range(bounds: map<Op, int>) | NotNull

  type Where = map<Column, Condition>

  /** The result: the constraints (`None` stands for `null` when there are
      none) and `filtersApplied`, the echo of the parsed values. */
  datatype WhereClause = WhereClause(where: Option<Where>, filtersApplied: map<Filter, Scalar>)

  /** When the raw value of a filter is used: the exact literal "true" or
      "false"; a non-empty text `parseInt` can read (so it holds a decimal
      digit); a text of length exactly one. */
  predicate Accepts(f: Filter, raw: string): (b: bool)
    ensures b ==> raw != []
    ensures b && !f.IsPalindromeFilter? && !f.ContainsCharacterFilter? ==>
              exists i :: 0 <= i < |raw| && IsDecimalDigit(raw[i])
  {
    match f
    case IsPalindromeFilter => raw == "true" || raw == "false"
    case ContainsCharacterFilter => |raw| == 1
    case _ => raw != "" && ParseInt(raw).Some?
  }

  /** The typed value of an accepted raw value. */
  function Parsed(f: Filter, raw: string): (v: Scalar)
    requires Accepts(f, raw)
    ensures f.IsPalindromeFilter? ==> v.BoolValue?
    ensures f.ContainsCharacterFilter? ==> v.CharValue?
    ensures f.MinLengthFilter? || f.MaxLengthFilter? || f.WordCountFilter? ==> v.IntValue?
  {
    match f
    case IsPalindromeFilter => BoolValue(raw == "true")
    case ContainsCharacterFilter => CharValue(raw[0])
    case _ => IntValue(ParseInt(raw).value)
  }

  /** The value the builder takes from the request for `f`, if any. */
  function Accepted(query: Query, f: Filter): Option<Scalar> {
    if Name(f) in query && Accepts(f, query[Name(f)]) then Some(Parsed(f, query[Name(f)])) else None
  }

  const AllFilters: set<Filter> :=
    {IsPalindromeFilter, MinLengthFilter, MaxLengthFilter, WordCountFilter, ContainsCharacterFilter}

  /** The two filters whose constraint goes through `lengthFilter`. */
  const LengthFilters: set<Filter> := {MinLengthFilter, MaxLengthFilter}

  /** Every echoed filter has its constraint carrying the same value, and
      every constraint comes from an echoed filter; the two length bounds
      share one range. */
  predicate EchoMatchesWhere(where: Where, applied: map<Filter, Scalar>) {
    && (PalindromeColumn in where <==> IsPalindromeFilter in applied)
    && (PalindromeColumn in where ==> where[PalindromeColumn] == Eq(applied[IsPalindromeFilter]))
    && (LengthColumn in where <==> MinLengthFilter in applied || MaxLengthFilter in applied)
    && (LengthColumn in where ==>
          && where[LengthColumn].Range?
          && (Gte in where[LengthColumn].bounds <==> MinLengthFilter in applied)
          && (Gte in where[LengthColumn].bounds ==> applied[MinLengthFilter] == IntValue(where[LengthColumn].bounds[Gte]))
          && (Lte in where[LengthColumn].bounds <==> MaxLengthFilter in applied)
          && (Lte in where[LengthColumn].bounds ==> applied[MaxLengthFilter] == IntValue(where[LengthColumn].bounds[Lte])))
    && (WordCountColumn in where <==> WordCountFilter in applied)
    && (WordCountColumn in where ==> where[WordCountColumn] == Eq(applied[WordCountFilter]))
    && (forall c :: FrequencyEntry(c) in where <==> ContainsCharacterFilter in applied && applied[ContainsCharacterFilter] == CharValue(c))
    && (forall c :: FrequencyEntry(c) in where ==> where[FrequencyEntry(c)] == NotNull)
  }

  /** The echo holds values of the types the filters parse to. */
  predicate WellTyped(applied: map<Filter, Scalar>) {
    && (IsPalindromeFilter in applied ==> applied[IsPalindromeFilter].BoolValue?)
    && (MinLengthFilter in applied ==> applied[MinLengthFilter].IntValue?)
    && (MaxLengthFilter in applied ==> applied[MaxLengthFilter].IntValue?)
    && (WordCountFilter in applied ==> applied[WordCountFilter].IntValue?)
    && (ContainsCharacterFilter in applied ==> applied[ContainsCharacterFilter].CharValue?)
  }

  /** `filtersApplied`: every filter whose raw value is accepted, with its
      parsed value. */
  function Echo(query: Query): (applied: map<Filter, Scalar>)
    ensures WellTyped(applied)
  {
    map f | f in AllFilters && Accepted(query, f).Some? :: Accepted(query, f).value
  }

  /** `lengthFilter`: `Op.gte` from `min_length`, `Op.lte` from
      `max_length`. */
  function LengthBounds(applied: map<Filter, Scalar>): (bounds: map<Op, int>)
    requires WellTyped(applied)
    ensures Gte in bounds <==> MinLengthFilter in applied
    ensures Gte in bounds ==> applied[MinLengthFilter] == IntValue(bounds[Gte])
    ensures Lte in bounds <==> MaxLengthFilter in applied
    ensures Lte in bounds ==> applied[MaxLengthFilter] == IntValue(bounds[Lte])
  {
    var low: map<Op, int> := if MinLengthFilter in applied then map[Gte := applied[MinLengthFilter].n] else map[];
    if MaxLengthFilter in applied then low[Lte := applied[MaxLengthFilter].n] else low
  }

  /** `Object.keys(lengthFilter).length`. The keys of `lengthFilter` are the
      operator symbols `Op.gte` and `Op.lte`, and `Object.keys` lists only
      string keys, so the source sees none (`symbolKeysListed` false); the
      evident intent is one key per bound (`symbolKeysListed` true). */
  function LengthKeyCount(bounds: map<Op, int>, symbolKeysListed: bool): nat {
    if symbolKeysListed then |bounds| else 0
  }

  /** The constraints, one block per filter as in the source: equality on
      the palindrome flag, one `>=`/`<=` range on the length when
      `lengthFilter` shows keys, equality on the word count, and presence of
      the character's frequency entry. */
  function Constraints(applied: map<Filter, Scalar>, symbolKeysListed: bool): (w: Where)
    requires WellTyped(applied)
    ensures EchoMatchesWhere(w, if symbolKeysListed then applied else applied - LengthFilters)
  {
    var w1: Where := if IsPalindromeFilter in applied then map[PalindromeColumn := Eq(applied[IsPalindromeFilter])] else map[];
    var bounds := LengthBounds(applied);
    var w2 := if LengthKeyCount(bounds, symbolKeysListed) > 0 then w1[LengthColumn := Range(bounds)] else w1;
    var w3 := if WordCountFilter in applied then w2[WordCountColumn := Eq(applied[WordCountFilter])] else w2;
    var w4 := if ContainsCharacterFilter in applied then w3[FrequencyEntry(applied[ContainsCharacterFilter].c) := NotNull] else w3;
    assert |bounds| > 0 <==> Gte in bounds || Lte in bounds by {
      if Gte in bounds { assert |bounds| > 0; }
      if Lte in bounds { assert |bounds| > 0; }
    }
    w4
  }

  /** Constraints that match an echo are empty exactly when the echo is. */
  lemma {:induction false} EmptyWhereIffEmptyEcho(w: Where, applied: map<Filter, Scalar>)
    requires WellTyped(applied) && EchoMatchesWhere(w, applied)
    ensures w == map[] <==> applied == map[]
  {
    if applied != map[] {
      var f :| f in applied;
      match f
      case IsPalindromeFilter => assert PalindromeColumn in w;
      case MinLengthFilter => assert LengthColumn in w;
      case MaxLengthFilter => assert LengthColumn in w;
      case WordCountFilter => assert WordCountColumn in w;
      case ContainsCharacterFilter => assert FrequencyEntry(applied[f].c) in w;
    }
    if w != map[] {
      var col :| col in w;
      match col
      case PalindromeColumn => assert IsPalindromeFilter in applied;
      case LengthColumn => assert MinLengthFilter in applied || MaxLengthFilter in applied;
      case WordCountColumn => assert WordCountFilter in applied;
      case FrequencyEntry(c) => assert ContainsCharacterFilter in applied;
    }
  }

  /** Removing the length filters empties an echo exactly when it held
      nothing else. */
  lemma {:induction false} WithoutLengthEmpty(applied: map<Filter, Scalar>)
    ensures applied - LengthFilters == map[] <==> applied.Keys <= LengthFilters
  {
    var rest := applied - LengthFilters;
    assert rest.Keys == applied.Keys - LengthFilters;
    if rest != map[] {
      var f :| f in rest;
      assert f in applied.Keys - LengthFilters;
    } else {
      assert rest.Keys == {};
      forall f | f in applied.Keys ensures f in LengthFilters {
        assert f !in applied.Keys - LengthFilters;
      }
    }
  }

  /** The constraints the source builds leave out the length column and
      match the echo without the length bounds; they are empty exactly when
      the echo holds nothing but length bounds. */
  lemma {:induction false} SourceConstraints(applied: map<Filter, Scalar>)
    requires WellTyped(applied)
    ensures var w := Constraints(applied, false);
            && LengthColumn !in w
            && EchoMatchesWhere(w, applied - LengthFilters)
            && (w == map[] <==> applied.Keys <= LengthFilters)
  {
    var rest := applied - LengthFilters;
    assert WellTyped(rest);
    EmptyWhereIffEmptyEcho(Constraints(applied, false), rest);
    WithoutLengthEmpty(applied);
  }

  /** The echo, filter by filter. */
  lemma {:induction false} EchoHolds(query: Query)
    ensures forall f :: f in Echo(query) <==> Name(f) in query && Accepts(f, query[Name(f)])
    ensures forall f :: f in Echo(query) ==> Echo(query)[f] == Parsed(f, query[Name(f)])
  {
    forall f ensures f in AllFilters {
      assert f == IsPalindromeFilter || f == MinLengthFilter || f == MaxLengthFilter || f == WordCountFilter || f == ContainsCharacterFilter;
    }
  }

  /** `buildWhereClause(query)` as written: the length bounds are echoed
      but, since `Object.keys` does not list `lengthFilter`'s symbol keys,
      never reach `where`; so `where` is `null` exactly when nothing but
      `min_length`/`max_length` was accepted. */
  function BuildWhereClause(query: Query): (r: WhereClause)
    ensures forall f :: f in r.filtersApplied <==> Name(f) in query && Accepts(f, query[Name(f)])
    ensures forall f :: f in r.filtersApplied ==> r.filtersApplied[f] == Parsed(f, query[Name(f)])
    ensures r.where.None? <==> r.filtersApplied.Keys <= LengthFilters
    ensures r.where.Some? ==> LengthColumn !in r.where.value
    ensures r.where.Some? ==> EchoMatchesWhere(r.where.value, r.filtersApplied - LengthFilters)
  {
    var applied := Echo(query);
    var w := Constraints(applied, false);
    SourceConstraints(applied);
    EchoHolds(query);
    WhereClause(if |w| > 0 then Some(w) else None, applied)
  }

  /** `buildWhereClause` as evidently intended: the length range reaches
      `where` whenever a bound is echoed, and `where` is `null` exactly when
      nothing is echoed. The echo is the same as the source's. */
  function BuildIntendedWhereClause(query: Query): (r: WhereClause)
    ensures r.filtersApplied == BuildWhereClause(query).filtersApplied
    ensures r.where.None? <==> r.filtersApplied == map[]
    ensures r.where.Some? ==> EchoMatchesWhere(r.where.value, r.filtersApplied)
  {
    var applied := Echo(query);
    var w := Constraints(applied, true);
    EmptyWhereIffEmptyEcho(w, applied);
    assert BuildWhereClause(query).filtersApplied == applied;
    WhereClause(if |w| > 0 then Some(w) else None, applied)
  }

  /** The value a stored record has in a column; a missing frequency entry
      is `null`. */
  function ColumnValue(p: StringProperties, col: Column): Option<Scalar> {
    match col
    case PalindromeColumn => Some(BoolValue(p.isPalindrome))
    case LengthColumn => Some(IntValue(p.length))
    case WordCountColumn => Some(IntValue(p.wordCount))
    case FrequencyEntry(c) =>
      if c in p.characterFrequencyMap then Some(IntValue(p.characterFrequencyMap[c])) else None
  }

  /** What a constraint asks of a column value. */
  predicate Holds(v: Option<Scalar>, cond: Condition) {
    match cond
    case Eq(x) => v == Some(x)
    case Range(bounds) =>
      && v.Some? && v.value.IntValue?
      && (Gte in bounds ==> v.value.n >= bounds[Gte])
      && (Lte in bounds ==> v.value.n <= bounds[Lte])
    case NotNull => v.Some?
  }

  /** A record passes a `where` clause; `null` lets every record through. */
  predicate MatchesWhere(p: StringProperties, where: Option<Where>) {
    where.Some? ==> forall col :: col in where.value ==> Holds(ColumnValue(p, col), where.value[col])
  }

  /** What the echoed filters promise about a record. */
  predicate MeetsFilters(p: StringProperties, applied: map<Filter, Scalar>) {
    && (IsPalindromeFilter in applied ==> applied[IsPalindromeFilter] == BoolValue(p.isPalindrome))
    && (MinLengthFilter in applied ==> applied[MinLengthFilter].IntValue? && p.length >= applied[MinLengthFilter].n)
    && (MaxLengthFilter in applied ==> applied[MaxLengthFilter].IntValue? && p.length <= applied[MaxLengthFilter].n)
    && (WordCountFilter in applied ==> applied[WordCountFilter] == IntValue(p.wordCount))
    && (ContainsCharacterFilter in applied ==>
          applied[ContainsCharacterFilter].CharValue? && applied[ContainsCharacterFilter].c in p.characterFrequencyMap)
  }

  /** Constraints that match a well-typed echo select exactly the records
      the echo describes. */
  lemma {:induction false} ConstraintsMeanEcho(p: StringProperties, w: Where, a: map<Filter, Scalar>)
    requires WellTyped(a) && EchoMatchesWhere(w, a)
    ensures MatchesWhere(p, Some(w)) <==> MeetsFilters(p, a)
  {
    if MatchesWhere(p, Some(w)) {
      if ContainsCharacterFilter in a {
        var c := a[ContainsCharacterFilter].c;
        assert Holds(ColumnValue(p, FrequencyEntry(c)), w[FrequencyEntry(c)]);
      }
      if MinLengthFilter in a || MaxLengthFilter in a {
        assert Holds(ColumnValue(p, LengthColumn), w[LengthColumn]);
      }
      if IsPalindromeFilter in a {
        assert Holds(ColumnValue(p, PalindromeColumn), w[PalindromeColumn]);
      }
      if WordCountFilter in a {
        assert Holds(ColumnValue(p, WordCountColumn), w[WordCountColumn]);
      }
    }
    if MeetsFilters(p, a) {
      forall col | col in w ensures Holds(ColumnValue(p, col), w[col]) {
      }
    }
  }

  /** The clause as written selects exactly the records that meet the
      echoed filters other than the two length bounds. */
  lemma {:induction false} WhereMeansFilters(p: StringProperties, query: Query)
    ensures var r := BuildWhereClause(query);
            MatchesWhere(p, r.where) <==> MeetsFilters(p, r.filtersApplied - LengthFilters)
  {
    var r := BuildWhereClause(query);
    if r.where.Some? {
      ConstraintsMeanEcho(p, r.where.value, r.filtersApplied - LengthFilters);
    }
  }

  /** As written, the length of a record never decides whether it passes:
      changing it to any other length gives the same answer. */
  lemma {:induction false} LengthNeverConstrains(query: Query, p: StringProperties, n: nat)
    ensures var r := BuildWhereClause(query);
            MatchesWhere(p, r.where) <==> MatchesWhere(p.(length := n), r.where)
  {
    WhereMeansFilters(p, query);
    WhereMeansFilters(p.(length := n), query);
  }

  /** The smallest input that shows it: `{min_length: "5"}` is echoed but
      gives a `null` clause. */
  lemma {:induction false} MinLengthOnlyGivesNullWhere()
    ensures BuildWhereClause(map["min_length" := "5"]) == WhereClause(None, map[MinLengthFilter := IntValue(5)])
  {
    var q := map["min_length" := "5"];
    var r := BuildWhereClause(q);
    MinLengthFiveEchoed();
    assert r.filtersApplied == Echo(q);
    assert r.filtersApplied.Keys <= LengthFilters by {
      assert r.filtersApplied.Keys == {MinLengthFilter};
    }
  }

  /** `{min_length: "5"}` is echoed as `{min_length: 5}`. */
  lemma {:induction false} MinLengthFiveEchoed()
    ensures Echo(map["min_length" := "5"]) == map[MinLengthFilter := IntValue(5)]
  {
    ParseIntOfFive();
    assert Accepts(MinLengthFilter, "5");
    SingleFilterEcho(MinLengthFilter, "5");
  }

  lemma {:induction false} ParseIntOfFive()
    ensures ParseInt("5") == Some(5)
  {
    ParseIntOfDigits("5");
    assert ValueOf("5", false) == 5;
  }

  /** A request carrying one accepted filter is echoed as exactly that
      filter with its parsed value. */
  lemma {:induction false} SingleFilterEcho(f: Filter, raw: string)
    requires Accepts(f, raw)
    ensures Echo(map[Name(f) := raw]) == map[f := Parsed(f, raw)]
  {
    var q := map[Name(f) := raw];
    forall g | g != f ensures g !in Echo(q) {
      NamesDiffer(g, f);
      EchoOmitsAbsent(q, g);
    }
    EchoHolds(q);
  }

  /** A filter whose property the request does not carry is not echoed. */
  lemma {:induction false} EchoOmitsAbsent(q: Query, g: Filter)
    requires Name(g) !in q
    ensures g !in Echo(q)
  {
    assert Accepted(q, g) == None;
  }

  /** The intended clause selects exactly the records the echoed filters
      describe. */
  lemma {:induction false} IntendedWhereMeansFilters(p: StringProperties, query: Query)
    ensures var r := BuildIntendedWhereClause(query);
            MatchesWhere(p, r.where) <==> MeetsFilters(p, r.filtersApplied)
  {
    var r := BuildIntendedWhereClause(query);
    if r.where.Some? {
      ConstraintsMeanEcho(p, r.where.value, r.filtersApplied);
    }
  }

  lemma {:induction false} NamesDiffer(f: Filter, g: Filter)
    requires f != g
    ensures Name(f) != Name(g)
  {
    assert Name(f)[1] != Name(g)[1] || |Name(f)| != |Name(g)| || Name(f)[0] != Name(g)[0];
  }

  /** Distinct filters are carried by distinct request properties. */
  lemma {:induction false} NamesInjective()
    ensures forall f, g :: Name(f) == Name(g) ==> f == g
  {
    forall f, g | f != g ensures Name(f) != Name(g) {
      NamesDiffer(f, g);
    }
  }

  /** A value the builder does not accept (a non-numeric length, a
      multi-character `contains_character`, "TRUE") is dropped: the result
      is as if the filter were absent. No error is raised. */
  lemma {:induction false} RejectedValueIsDropped(query: Query, f: Filter, raw: string)
    requires !Accepts(f, raw)
    ensures BuildWhereClause(query[Name(f) := raw]) == BuildWhereClause(query - {Name(f)})
  {
    var q1 := query[Name(f) := raw];
    var q2 := query - {Name(f)};
    forall g ensures Accepted(q1, g) == Accepted(q2, g) {
      if g != f {
        NamesDiffer(f, g);
        assert Name(g) in q1 <==> Name(g) in q2;
      }
    }
    assert Echo(q1) == Echo(q2);
  }

  /** Properties other than the five filter names never affect the result. */
  lemma {:induction false} UnrecognizedKeysIgnored(query: Query, key: string)
    requires !IsRecognized(key)
    ensures BuildWhereClause(query) == BuildWhereClause(query - {key})
  {
    var q2 := query - {key};
    forall g ensures Accepted(query, g) == Accepted(q2, g) {
      assert Name(g) != key;
    }
    assert Echo(query) == Echo(q2);
  }

  /** The builder does not check that the bounds are consistent: with
      `min_length` above `max_length` both are echoed, and the intended
      clause then selects no record. */
  lemma {:induction false} CrossedBoundsSelectNothing(query: Query, p: StringProperties)
    requires Name(MinLengthFilter) in query && Accepts(MinLengthFilter, query[Name(MinLengthFilter)])
    requires Name(MaxLengthFilter) in query && Accepts(MaxLengthFilter, query[Name(MaxLengthFilter)])
    requires ParseInt(query[Name(MinLengthFilter)]).value > ParseInt(query[Name(MaxLengthFilter)]).value
    ensures var r := BuildIntendedWhereClause(query);
            && MinLengthFilter in r.filtersApplied && MaxLengthFilter in r.filtersApplied
            && !MatchesWhere(p, r.where)
  {
    IntendedWhereMeansFilters(p, query);
  }

  /** `is_palindrome` "true"/"false" is echoed as the matching boolean, and
      the clause then selects only records with that flag. */
  lemma {:induction false} PalindromeRequested(q: Query, b: bool, p: StringProperties)
    requires Name(IsPalindromeFilter) in q && q[Name(IsPalindromeFilter)] == (if b then "true" else "false")
    ensures var built := BuildWhereClause(q);
            && IsPalindromeFilter in built.filtersApplied
            && built.filtersApplied[IsPalindromeFilter] == BoolValue(b)
            && (MatchesWhere(p, built.where) ==> p.isPalindrome == b)
  {
    WhereMeansFilters(p, q);
  }

  /** A `word_count` of n followed by text that does not continue the
      number is echoed as n, and the clause then selects only records with
      n words. */
  lemma {:induction false} WordCountRequested(q: Query, n: nat, suffix: string, p: StringProperties)
    requires suffix == [] || !IsDecimalDigit(suffix[0])
    requires n == 0 ==> suffix == [] || (suffix[0] != 'x' && suffix[0] != 'X')
    requires Name(WordCountFilter) in q && q[Name(WordCountFilter)] == NatToString(n) + suffix
    ensures var built := BuildWhereClause(q);
            && WordCountFilter in built.filtersApplied
            && built.filtersApplied[WordCountFilter] == IntValue(n)
            && (MatchesWhere(p, built.where) ==> p.wordCount == n)
  {
    ParseIntIgnoresSuffix(n, suffix);
    WhereMeansFilters(p, q);
  }

  /** A one-character `contains_character` is echoed as that character, and
      the clause then selects only records whose frequency map has it. */
  lemma {:induction false} CharacterRequested(q: Query, x: char, p: StringProperties)
    requires Name(ContainsCharacterFilter) in q && q[Name(ContainsCharacterFilter)] == [x]
    ensures var built := BuildWhereClause(q);
            && ContainsCharacterFilter in built.filtersApplied
            && built.filtersApplied[ContainsCharacterFilter] == CharValue(x)
            && (MatchesWhere(p, built.where) ==> x in p.characterFrequencyMap)
  {
    WhereMeansFilters(p, q);
  }
}
