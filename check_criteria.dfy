/**
 * Screening of one bibliographic record against systematic-review criteria
 * (scripts/clean/check_criteria.py): exclusion rules first, in a fixed order,
 * then inclusion rules; the first rule that fires decides the reason code.
 */
module CheckCriteria {
  import opened Wrappers
  import opened Builtins

  /** A JSON value held by a record field or a criteria bound. */
  datatype Field =
    | Null
    | Bool(b: bool)
    | Str(s: string)
    | Int(n: int)
      /** `repr` is Python's `str()` of the float, which the model does not compute. */
    | Float(value: real, repr: string)
    | List(items: seq<string>)

  /** A bibliographic record: a dictionary from field names to values. */
  type Record = map<string, Field>

  /** Python truthiness of a field value. */
  predicate Truthy(f: Field) {
    match f
    case Null => false
    case Bool(b) => b
    case Str(s) => s != []
    case Int(n) => n != 0
    case Float(v, _) => v != 0.0
    case List(items) => items != []
  }

  /** Python's `int(f)`; `None` where Python raises. */
  function ToInt(f: Field): (r: Option<int>)
    ensures f.Int? ==> r == Some(f.n)
    ensures f.Bool? ==> r == Some(if f.b then 1 else 0)
    ensures f.Float? ==> r == Some(Trunc(f.value))
    ensures f.Str? ==> (r.Some? <==> Readable(Strip(f.s)))
    ensures f.Str? && IsIntLiteral(Strip(f.s)) ==> r == Some(LiteralValue(Strip(f.s)))
    ensures f.Str? && Strip(f.s) != [] && Strip(f.s)[0] == '-' && IsIntLiteral(Strip(f.s)[1..]) ==>
      r == Some(-(LiteralValue(Strip(f.s)[1..]) as int))
    ensures f.Str? && Strip(f.s) == [] ==> r == None
    ensures f.Null? || f.List? ==> r == None
  {
    match f
    case Int(n) => Some(n)
    case Bool(b) => Some(if b then 1 else 0)
    case Float(v, _) => Some(Trunc(v))
    case Str(s) => ParseInt(s)
    case Null => None
    case List(_) => None
  }

  /** `record.get(key, default)`. */
  function Get(rec: Record, key: string, default: Field): Field {
    if key in rec then rec[key] else default
  }

  /** `_normalize_list_field`: lists are space-joined, `None` is empty, everything lower-cased. */
  function Normalize(f: Field): (r: string)
    ensures Lower(r) == r
    ensures f.Null? ==> r == []
    ensures f.List? ==> r == Lower(Join(f.items, " "))
    ensures f.Str? ==> r == Lower(f.s)
    ensures f.Bool? ==> r == if f.b then "true" else "false"
  {
    LowerIdempotentAll();
    match f
    case List(items) => Lower(Join(items, " "))
    case Null => []
    case Bool(b) => if b then "true" else "false"
    case Str(s) => Lower(s)
    case Int(n) => Lower(IntToString(n))
    case Float(_, repr) => Lower(repr)
  }

  lemma LowerIdempotentAll()
    ensures forall s :: Lower(Lower(s)) == Lower(s)
  {
  }

  /** The first four characters of `s` (fewer when `s` is shorter): `s[:4]`. */
  function Prefix4(s: string): (p: string)
    ensures |p| == if |s| < 4 then |s| else 4
    ensures p <= s
  {
    if |s| < 4 then s else s[..4]
  }

  /**
   * The record's year as the screening reads it: numbers are truncated; a
   * string gives a year only when its first four characters (or all of it, when
   * shorter) are digits. `str(None)` is "None" and `str(list)` starts with "[",
   * so neither gives a year.
   */
  function RecordYear(y: Field): (r: Option<int>)
    ensures y.Int? ==> r == Some(y.n)
    ensures y.Bool? ==> r == Some(if y.b then 1 else 0)
    ensures y.Float? ==> r == Some(Trunc(y.value))
    ensures y.Str? ==> (r.Some? <==> y.s != [] && IsDigits(Prefix4(y.s)))
    ensures y.Str? && r.Some? ==> r.value == DigitsValue(Prefix4(y.s)) && 0 <= r.value <= 9999
    ensures y.Null? || y.List? ==> r == None
  {
    match y
    case Int(n) => Some(n)
    case Bool(b) => Some(if b then 1 else 0)
    case Float(v, _) => Some(Trunc(v))
    case Str(s) =>
      var p := Prefix4(s);
      if s != [] && IsDigits(p) then
        FourDigitsBound(p);
        Some(DigitsValue(p))
      else None
    case Null => None
    case List(_) => None
  }

  lemma {:induction false} FourDigitsBound(p: string)
    requires |p| <= 4 && forall k :: 0 <= k < |p| ==> IsDigit(p[k])
    ensures DigitsValue(p) <= 9999
  {
    DigitsBound(p);
    assert Pow10(|p|) <= 10000 by {
      assert Pow10(0) == 1 && Pow10(1) == 10 && Pow10(2) == 100 && Pow10(3) == 1000 && Pow10(4) == 10000;
    }
  }

  /** A run of `n` digits is worth less than `10^n`. */
  lemma {:induction false} DigitsBound(p: string)
    requires forall k :: 0 <= k < |p| ==> IsDigit(p[k])
    ensures DigitsValue(p) < Pow10(|p|)
  {
    if p != [] {
      DigitsBound(p[..|p| - 1]);
    }
  }

  function Pow10(n: nat): (r: nat)
    ensures r >= 1
  {
    if n == 0 then 1 else 10 * Pow10(n - 1)
  }

  /**
   * `match_any`: false on empty text or no patterns; otherwise true iff some
   * non-empty pattern occurs, ignoring case, in the text.
   */
  function MatchAny(text: string, patterns: seq<string>): (r: bool)
    ensures r <==> text != [] && exists k :: 0 <= k < |patterns| && patterns[k] != [] && Contains(Lower(text), Lower(patterns[k]))
  {
    if text == [] || patterns == [] then false else AnyPatternIn(Lower(text), patterns)
  }

  /** The `for pat in patterns` search of `match_any`. */
  function AnyPatternIn(txt: string, patterns: seq<string>): (r: bool)
    ensures r <==> exists k :: 0 <= k < |patterns| && patterns[k] != [] && Contains(txt, Lower(patterns[k]))
  {
    if patterns == [] then false
    else if patterns[0] != [] && Contains(txt, Lower(patterns[0])) then true
    else
      var rest := AnyPatternIn(txt, patterns[1..]);
      assert forall k :: 1 <= k < |patterns| ==> patterns[k] == patterns[1..][k - 1];
      rest
  }

  /** `[p.lower() for p in patterns if p]`. */
  function LowerNonEmpty(patterns: seq<string>): (r: seq<string>)
    ensures forall x :: x in r <==> exists k :: 0 <= k < |patterns| && patterns[k] != [] && x == Lower(patterns[k])
  {
    if patterns == [] then []
    else
      var rest := LowerNonEmpty(patterns[1..]);
      assert forall k :: 1 <= k < |patterns| ==> patterns[k] == patterns[1..][k - 1];
      if patterns[0] != [] then [Lower(patterns[0])] + rest else rest
  }

  /** The criteria's `exclusion` section; `year` holds `exclusion["year"].get("before")`. */
  datatype Exclusion = Exclusion(
    methodologies: seq<string>,
    studyDesigns: seq<string>,
    publicationTypes: seq<string>,
    species: seq<string>,
    year: Option<Field>,
    languages: seq<string>)

  /** `inclusion["year"]`: its `min` and `max` entries, `Null` when absent. */
  datatype YearBounds = YearBounds(min: Field, max: Field)

  /** The criteria's `inclusion` section. */
  datatype Inclusion = Inclusion(
    studyDesigns: seq<string>,
    publicationTypes: seq<string>,
    comparisons: seq<string>,
    populationTerms: seq<string>,
    year: Option<YearBounds>,
    languages: seq<string>)

  /** The criteria dictionary; an absent section is `None`. */
  datatype Criteria = Criteria(inclusion: Option<Inclusion>, exclusion: Option<Exclusion>)

  /** The reason codes `check_criteria` returns. */
  datatype Reason =
    | ExclMethodology | ExclStudyDesign | ExclPublicationType | ExclSpecies | ExclYearBefore | ExclLanguage
    | NotAllowedStudyDesign | NotAllowedPubType | MissingRequiredComparison | PopulationMismatch
    | YearTooEarly | YearTooRecent | InvalidYear | LanguageMismatch
  {
    predicate IsExclusion() {
      ExclMethodology? || ExclStudyDesign? || ExclPublicationType? || ExclSpecies? || ExclYearBefore? || ExclLanguage?
    }

    function Code(): string {
      match this
      case ExclMethodology => "excl_methodology"
      case ExclStudyDesign => "excl_study_design"
      case ExclPublicationType => "excl_publication_type"
      case ExclSpecies => "excl_species"
      case ExclYearBefore => "excl_year_before"
      case ExclLanguage => "excl_language"
      case NotAllowedStudyDesign => "not_allowed_study_design"
      case NotAllowedPubType => "not_allowed_pub_type"
      case MissingRequiredComparison => "missing_required_comparison"
      case PopulationMismatch => "population_mismatch"
      case YearTooEarly => "year_too_early"
      case YearTooRecent => "year_too_recent"
      case InvalidYear => "invalid_year"
      case LanguageMismatch => "language_mismatch"
    }
  }

  /** The normalised record fields and the parsed year the rules look at. */
  datatype Derived = Derived(
    title: string, abstractText: string, keywords: string, participants: string,
    pubType: string, studyDesign: string, methods: string, species: string, lang: string,
    year: Option<int>)

  function Derive(rec: Record): Derived {
    Derived(
      Normalize(Get(rec, "title", Str(""))),
      Normalize(Get(rec, "abstract", Str(""))),
      Normalize(Get(rec, "keywords", Str(""))),
      Normalize(Get(rec, "participants", Str(""))),
      Normalize(Get(rec, "publication_type", Str(""))),
      Normalize(Get(rec, "study_design", Str(""))),
      Normalize(Get(rec, "methods", Str(""))),
      Normalize(Get(rec, "species", Str(""))),
      Normalize(Get(rec, "language", Str(""))),
      RecordYear(Get(rec, "year", Null)))
  }

  /** The year exclusion: only a known year below a readable, truthy `before` excludes. */
  function YearBeforeOutcome(year: Option<int>, before: Option<Field>): (r: Option<Reason>)
    ensures r == None || r == Some(ExclYearBefore)
    ensures r.Some? <==> (year.Some? && before.Some? && Truthy(before.value)
                          && ToInt(before.value).Some? && year.value < ToInt(before.value).value)
  {
    if before.Some? && Truthy(before.value) && year.Some? then
      match ToInt(before.value)
      case Some(b) => if year.value < b then Some(ExclYearBefore) else None
      case None => None
    else None
  }

  /** The exclusion section, rule by rule in source order: the first match returns. */
  function ExclusionCheck(d: Derived, exc: Exclusion): Option<Reason> {
    if MatchAny(d.methods, exc.methodologies) then Some(ExclMethodology)
    else if MatchAny(d.studyDesign, exc.studyDesigns) then Some(ExclStudyDesign)
    else if MatchAny(d.pubType, exc.publicationTypes) then Some(ExclPublicationType)
    else if MatchAny(d.species, exc.species) then Some(ExclSpecies)
    else if YearBeforeOutcome(d.year, exc.year).Some? then Some(ExclYearBefore)
    else if exc.languages != [] && d.lang != [] && d.lang in LowerNonEmpty(exc.languages) then Some(ExclLanguage)
    else None
  }

  /**
   * The inclusion year check: a `year` entry with an unreadable record year is
   * `invalid_year`; a falsy bound is ignored; a truthy bound `int()` cannot read
   * is `invalid_year`; otherwise the year is compared with `min`, then `max`.
   */
  function YearBoundsOutcome(year: Option<int>, bounds: Option<YearBounds>): (r: Option<Reason>)
    ensures bounds.None? ==> r == None
    ensures bounds.Some? && year.None? ==> r == Some(InvalidYear)
    ensures bounds.Some? && year.Some? && !Truthy(bounds.value.min) && !Truthy(bounds.value.max) ==> r == None
    ensures r == Some(YearTooEarly) <==>
      year.Some? && bounds.Some? && Truthy(bounds.value.min) && ToInt(bounds.value.min).Some?
      && year.value < ToInt(bounds.value.min).value
    ensures r == Some(YearTooRecent) <==>
      year.Some? && bounds.Some? && MinPasses(year.value, bounds.value.min)
      && Truthy(bounds.value.max) && ToInt(bounds.value.max).Some?
      && year.value > ToInt(bounds.value.max).value
    ensures r == Some(InvalidYear) <==>
      bounds.Some? &&
      (|| year.None?
       || (Truthy(bounds.value.min) && ToInt(bounds.value.min).None?)
       || (MinPasses(year.value, bounds.value.min) && Truthy(bounds.value.max) && ToInt(bounds.value.max).None?))
    ensures r == None || r == Some(YearTooEarly) || r == Some(YearTooRecent) || r == Some(InvalidYear)
  {
    match bounds
    case None => None
    case Some(b) =>
      if year.None? then Some(InvalidYear)
      else
        var y := year.value;
        if Truthy(b.min) && ToInt(b.min).None? then Some(InvalidYear)
        else if Truthy(b.min) && y < ToInt(b.min).value then Some(YearTooEarly)
        else if Truthy(b.max) && ToInt(b.max).None? then Some(InvalidYear)
        else if Truthy(b.max) && y > ToInt(b.max).value then Some(YearTooRecent)
        else None
  }

  /** The `min` test lets the year through: the bound is falsy, or readable and at most the year. */
  predicate MinPasses(y: int, min: Field) {
    !Truthy(min) || (ToInt(min).Some? && y >= ToInt(min).value)
  }

  /** A bound written with digit groups is read as Python reads it: `"2_019"` is 2019. */
  lemma GroupedBoundIsRead(a: string, b: string)
    requires IsDigits(a) && IsDigits(b)
    ensures ToInt(Str(a + "_" + b)) == Some(DigitsValue(a + b))
  {
    ParseIntGrouped(a, b);
  }

  /** Such a bound as `min`: a year below its value is too early, any other year passes. */
  lemma GroupedBoundDecides(a: string, b: string, y: int)
    requires IsDigits(a) && IsDigits(b)
    ensures var m := Str(a + "_" + b);
      YearBoundsOutcome(Some(y), Some(YearBounds(m, Null)))
        == if y < DigitsValue(a + b) then Some(YearTooEarly) else None
  {
    GroupedBoundIsRead(a, b);
    assert Truthy(Str(a + "_" + b));
  }

  /** `allowed and value and value not in allowed`: exact lower-case membership. */
  predicate NotAllowed(value: string, allowed: seq<string>) {
    var list := LowerNonEmpty(allowed);
    list != [] && value != [] && value !in list
  }

  /** The inclusion section, rule by rule in source order: the first failure returns. */
  function InclusionCheck(d: Derived, inc: Inclusion): Option<Reason> {
    if NotAllowed(d.studyDesign, inc.studyDesigns) then Some(NotAllowedStudyDesign)
    else if NotAllowed(d.pubType, inc.publicationTypes) then Some(NotAllowedPubType)
    else if inc.comparisons != []
         && !(MatchAny(d.title, inc.comparisons) || MatchAny(d.abstractText, inc.comparisons) || MatchAny(d.keywords, inc.comparisons))
    then Some(MissingRequiredComparison)
    else if inc.populationTerms != []
         && !(MatchAny(d.participants, inc.populationTerms) || MatchAny(d.title, inc.populationTerms) || MatchAny(d.abstractText, inc.populationTerms))
    then Some(PopulationMismatch)
    else if YearBoundsOutcome(d.year, inc.year).Some? then YearBoundsOutcome(d.year, inc.year)
    else if NotAllowed(d.lang, inc.languages) then Some(LanguageMismatch)
    else None
  }

  /**
   * `check_criteria`: `(include, reason)`. The record is included exactly when
   * no reason is given; empty criteria include everything.
   */
  function Check(rec: Record, c: Criteria): (r: (bool, Option<Reason>))
    ensures r.0 <==> r.1 == None
    ensures c == Criteria(None, None) ==> r == (true, None)
  {
    if c == Criteria(None, None) then (true, None)
    else
      var d := Derive(rec);
      var excl := if c.exclusion.Some? then ExclusionCheck(d, c.exclusion.value) else None;
      if excl.Some? then (false, excl)
      else
        var incl := if c.inclusion.Some? then InclusionCheck(d, c.inclusion.value) else None;
        if incl.Some? then (false, incl) else (true, None)
  }

  // ---------------------------------------------------------------------------
  // The rules as an ordered list, each evaluated on its own.

  /** Each exclusion rule's own verdict, in the order the source tries them. */
  function ExclusionRules(d: Derived, exc: Exclusion): (rules: seq<Option<Reason>>)
    ensures |rules| == 6
    ensures forall k :: 0 <= k < 6 && rules[k].Some? ==> rules[k].value.IsExclusion()
  {
    [ if MatchAny(d.methods, exc.methodologies) then Some(ExclMethodology) else None,
      if MatchAny(d.studyDesign, exc.studyDesigns) then Some(ExclStudyDesign) else None,
      if MatchAny(d.pubType, exc.publicationTypes) then Some(ExclPublicationType) else None,
      if MatchAny(d.species, exc.species) then Some(ExclSpecies) else None,
      YearBeforeOutcome(d.year, exc.year),
      if exc.languages != [] && d.lang != [] && d.lang in LowerNonEmpty(exc.languages) then Some(ExclLanguage) else None ]
  }

  /** Each inclusion rule's own verdict, in the order the source tries them. */
  function InclusionRules(d: Derived, inc: Inclusion): (rules: seq<Option<Reason>>)
    ensures |rules| == 6
    ensures forall k :: 0 <= k < 6 && rules[k].Some? ==> !rules[k].value.IsExclusion()
  {
    [ if NotAllowed(d.studyDesign, inc.studyDesigns) then Some(NotAllowedStudyDesign) else None,
      if NotAllowed(d.pubType, inc.publicationTypes) then Some(NotAllowedPubType) else None,
      if inc.comparisons != []
         && !(MatchAny(d.title, inc.comparisons) || MatchAny(d.abstractText, inc.comparisons) || MatchAny(d.keywords, inc.comparisons))
      then Some(MissingRequiredComparison) else None,
      if inc.populationTerms != []
         && !(MatchAny(d.participants, inc.populationTerms) || MatchAny(d.title, inc.populationTerms) || MatchAny(d.abstractText, inc.populationTerms))
      then Some(PopulationMismatch) else None,
      YearBoundsOutcome(d.year, inc.year),
      if NotAllowed(d.lang, inc.languages) then Some(LanguageMismatch) else None ]
  }

  /** All rules of the criteria: the exclusion rules, then the inclusion rules. */
  function Rules(d: Derived, c: Criteria): seq<Option<Reason>> {
    (if c.exclusion.Some? then ExclusionRules(d, c.exclusion.value) else [])
    + (if c.inclusion.Some? then InclusionRules(d, c.inclusion.value) else [])
  }

  /** The verdict of the first rule that fires, if any. */
  function FirstFired(rules: seq<Option<Reason>>): (r: Option<Reason>)
    ensures r.Some? <==> exists k :: 0 <= k < |rules| && rules[k].Some?
    ensures r.Some? ==> r in rules
  {
    if rules == [] then None
    else if rules[0].Some? then rules[0]
    else
      var r := FirstFired(rules[1..]);
      assert forall k :: 1 <= k < |rules| ==> rules[k] == rules[1..][k - 1];
      r
  }

  /** The verdict is the one of the rule that fires with no rule before it firing. */
  lemma {:induction false} FirstFiredIsFirst(rules: seq<Option<Reason>>, k: nat)
    requires k < |rules| && rules[k].Some?
    requires forall j :: 0 <= j < k ==> rules[j].None?
    ensures FirstFired(rules) == rules[k]
  {
    if k > 0 {
      FirstFiredIsFirst(rules[1..], k - 1);
    }
  }

  lemma {:induction false} FirstFiredAppend(a: seq<Option<Reason>>, b: seq<Option<Reason>>)
    ensures FirstFired(a + b) == if FirstFired(a).Some? then FirstFired(a) else FirstFired(b)
  {
    if a == [] {
      assert a + b == b;
    } else {
      assert (a + b)[0] == a[0];
      assert (a + b)[1..] == a[1..] + b;
      FirstFiredAppend(a[1..], b);
    }
  }

  lemma ExclusionCheckIsFirstFired(d: Derived, exc: Exclusion)
    ensures ExclusionCheck(d, exc) == FirstFired(ExclusionRules(d, exc))
  {
    var rules := ExclusionRules(d, exc);
    if rules[0].Some? { FirstFiredIsFirst(rules, 0); }
    else if rules[1].Some? { FirstFiredIsFirst(rules, 1); }
    else if rules[2].Some? { FirstFiredIsFirst(rules, 2); }
    else if rules[3].Some? { FirstFiredIsFirst(rules, 3); }
    else if rules[4].Some? { FirstFiredIsFirst(rules, 4); }
    else if rules[5].Some? { FirstFiredIsFirst(rules, 5); }
  }

  lemma InclusionCheckIsFirstFired(d: Derived, inc: Inclusion)
    ensures InclusionCheck(d, inc) == FirstFired(InclusionRules(d, inc))
  {
    var rules := InclusionRules(d, inc);
    if rules[0].Some? { FirstFiredIsFirst(rules, 0); }
    else if rules[1].Some? { FirstFiredIsFirst(rules, 1); }
    else if rules[2].Some? { FirstFiredIsFirst(rules, 2); }
    else if rules[3].Some? { FirstFiredIsFirst(rules, 3); }
    else if rules[4].Some? { FirstFiredIsFirst(rules, 4); }
    else if rules[5].Some? { FirstFiredIsFirst(rules, 5); }
  }

  /**
   * The reason `check_criteria` gives is the verdict of the first rule, in the
   * fixed order methodology, study design, publication type, species,
   * year-before, language (exclusion), then study design, publication type,
   * comparison, population, year bounds, language (inclusion), that fires.
   */
  lemma {:induction false} ReasonIsFirstFiredRule(rec: Record, c: Criteria)
    requires c != Criteria(None, None)
    ensures Check(rec, c).1 == FirstFired(Rules(Derive(rec), c))
  {
    var d := Derive(rec);
    var e := if c.exclusion.Some? then ExclusionRules(d, c.exclusion.value) else [];
    var i := if c.inclusion.Some? then InclusionRules(d, c.inclusion.value) else [];
    if c.exclusion.Some? { ExclusionCheckIsFirstFired(d, c.exclusion.value); }
    if c.inclusion.Some? { InclusionCheckIsFirstFired(d, c.inclusion.value); }
    FirstFiredAppend(e, i);
  }

  /**
   * Exclusion rules take priority: when any exclusion rule fires, the record is
   * excluded with the reason of the first exclusion rule that fires, whatever
   * the inclusion section says.
   */
  lemma ExclusionTakesPriority(rec: Record, c: Criteria, k: nat)
    requires c.exclusion.Some? && k < 6
    requires ExclusionRules(Derive(rec), c.exclusion.value)[k].Some?
    ensures !Check(rec, c).0
    ensures Check(rec, c).1 == FirstFired(ExclusionRules(Derive(rec), c.exclusion.value))
    ensures Check(rec, c).1.value.IsExclusion()
  {
    ExclusionCheckIsFirstFired(Derive(rec), c.exclusion.value);
  }

  /** A record whose year cannot be read is never excluded for being too early. */
  lemma UnknownYearNeverExcludedByYear(rec: Record, c: Criteria)
    requires Derive(rec).year.None?
    ensures Check(rec, c).1 != Some(ExclYearBefore)
  {
  }

  /**
   * Study design, publication type and language are checked by exact
   * lower-case equality against the non-empty allowed values, and an empty
   * record field never fails those checks.
   */
  lemma ExactEqualityRules(rec: Record, c: Criteria)
    ensures Check(rec, c).1 == Some(NotAllowedStudyDesign) ==>
      (Derive(rec).studyDesign != [] && c.inclusion.Some? &&
       forall k :: 0 <= k < |c.inclusion.value.studyDesigns| ==> Derive(rec).studyDesign != Lower(c.inclusion.value.studyDesigns[k]))
    ensures Check(rec, c).1 == Some(NotAllowedPubType) ==>
      (Derive(rec).pubType != [] && c.inclusion.Some? &&
       forall k :: 0 <= k < |c.inclusion.value.publicationTypes| ==> Derive(rec).pubType != Lower(c.inclusion.value.publicationTypes[k]))
    ensures Check(rec, c).1 == Some(LanguageMismatch) ==>
      (Derive(rec).lang != [] && c.inclusion.Some? &&
       forall k :: 0 <= k < |c.inclusion.value.languages| ==> Derive(rec).lang != Lower(c.inclusion.value.languages[k]))
    ensures Check(rec, c).1 == Some(ExclLanguage) ==>
      (Derive(rec).lang != [] && c.exclusion.Some? &&
       exists k :: 0 <= k < |c.exclusion.value.languages| && Derive(rec).lang == Lower(c.exclusion.value.languages[k]))
  {
    var d := Derive(rec);
    if c.inclusion.Some? {
      var inc := c.inclusion.value;
      forall k | 0 <= k < |inc.studyDesigns| && inc.studyDesigns[k] == [] ensures Lower(inc.studyDesigns[k]) == [] { }
      forall k | 0 <= k < |inc.publicationTypes| && inc.publicationTypes[k] == [] ensures Lower(inc.publicationTypes[k]) == [] { }
      forall k | 0 <= k < |inc.languages| && inc.languages[k] == [] ensures Lower(inc.languages[k]) == [] { }
    }
  }
}
