/** Which ability categories apply to a run (packages/abilities/src/applicability.ts). */
module Applicability {
  import opened Wrappers
  import opened Catalog
  import opened CatalogRegistry
  import opened Choices

  datatype Capability = AVAILABLE | NOT_AVAILABLE | UNKNOWN

  datatype Why =
    | ObservedUsage | RaceDataUnavailable | RaceNotCompatible | RaceCompatible | Baseline | FormDependent | PetDependent
    | SharedRule | TalentDataUnavailable | TalentSelected | TalentNotSelected
    | FallbackReason | NoRulesForCategory | SharedConsumable | OptionalGroup | CatalogRefused(reason: Reason)

  datatype Resolved = Resolved(rule: Rule, state: Capability, why: Why)

  datatype CategoryState = NotApplicable | Uncertain | Applicable

  datatype CategoryResult = CategoryResult(category: Category, state: CategoryState, why: Why, rules: seq<Rule>)

  /** What is known about the run; `raceOf` normalizes a race slug. */
  datatype Evidence = Evidence(talents: Option<seq<int>>, observed: Option<seq<int>>, race: Option<string>,
                               raceOf: string -> Option<string>)

  predicate AnyOf(ids: seq<int>, r: Rule) {
    exists i :: 0 <= i < |ids| && ids[i] in OwnIds(r)
  }

  predicate IsObserved(r: Rule, e: Evidence) {
    e.observed.Some? && AnyOf(e.observed.value, r)
  }

  function RaceOf(e: Evidence): Option<string> {
    if e.race.None? then None else e.raceOf(e.race.value)
  }

  /** `raceCompatible` on the normalized race, which it normalizes once more. */
  predicate RaceFits(r: Rule, e: Evidence) {
    && RaceOf(e).Some?
    && var race := e.raceOf(RaceOf(e).value);
      race.Some? && exists i :: 0 <= i < |r.raceSlugs| && e.raceOf(r.raceSlugs[i]) == race
  }

  predicate NeedsTalent(r: Rule) {
    r.availability.TALENT? || r.availability.CHOICE_NODE?
  }

  /** `resolveAbilityCapability`. */
  function Resolve(r: Rule, e: Evidence): Resolved {
    if IsObserved(r, e) then Resolved(r, AVAILABLE, ObservedUsage)
    else if r.raceSlugs != [] && RaceOf(e).None? then Resolved(r, UNKNOWN, RaceDataUnavailable)
    else if r.raceSlugs != [] && !RaceFits(r, e) then Resolved(r, NOT_AVAILABLE, RaceNotCompatible)
    else if r.raceSlugs != [] && r.availability.SHARED? then Resolved(r, AVAILABLE, RaceCompatible)
    else match r.availability
      case BASELINE => Resolved(r, AVAILABLE, Baseline)
      case FORM_DEPENDENT => Resolved(r, AVAILABLE, FormDependent)
      case PET_DEPENDENT => Resolved(r, AVAILABLE, PetDependent)
      case SHARED => Resolved(r, AVAILABLE, SharedRule)
      case _ =>
        if e.talents.None? then Resolved(r, UNKNOWN, TalentDataUnavailable)
        else if AnyOf(e.talents.value, r) then Resolved(r, AVAILABLE, TalentSelected)
        else Resolved(r, NOT_AVAILABLE, TalentNotSelected)
  }

  function ResolveAll(rules: seq<Rule>, e: Evidence): (rs: seq<Resolved>)
    ensures |rs| == |rules| && forall i :: 0 <= i < |rs| ==> rs[i] == Resolve(rules[i], e)
  {
    if rules == [] then [] else [Resolve(rules[0], e)] + ResolveAll(rules[1..], e)
  }

  predicate IsAvailable(x: Resolved) { x.state.AVAILABLE? }
  predicate IsHardUnknown(x: Resolved) { x.state.UNKNOWN? && x.why != RaceDataUnavailable }
  predicate IsUnknown(x: Resolved) { x.state.UNKNOWN? }
  predicate IsClassOwned(x: Resolved) { x.rule.classSlug.Some? }

  function Filter(p: Resolved -> bool, xs: seq<Resolved>): (ys: seq<Resolved>)
    ensures forall y :: y in ys <==> y in xs && p(y)
    ensures |ys| <= |xs|
  {
    if xs == [] then [] else (if p(xs[0]) then [xs[0]] else []) + Filter(p, xs[1..])
  }

  function RulesOf(xs: seq<Resolved>): (rules: seq<Rule>)
    ensures |rules| == |xs| && forall i :: 0 <= i < |xs| ==> rules[i] == xs[i].rule
  {
    if xs == [] then [] else [xs[0].rule] + RulesOf(xs[1..])
  }

  /** `aggregateCapabilityStates`. */
  function Aggregate(category: Category, xs: seq<Resolved>): CategoryResult {
    var unknown := Filter(IsUnknown, xs);
    Settle(category, xs, Filter(IsAvailable, xs), unknown, Filter(IsHardUnknown, unknown), Filter(IsClassOwned, xs))
  }

  function Settle(category: Category, xs: seq<Resolved>, available: seq<Resolved>, unknown: seq<Resolved>,
                  hardUnknown: seq<Resolved>, owned: seq<Resolved>): CategoryResult
  {
    if xs == [] then CategoryResult(category, NotApplicable, FallbackReason, [])
    else if available != [] then CategoryResult(category, Applicable, available[0].why, RulesOf(available))
    else if hardUnknown != [] then CategoryResult(category, Uncertain, hardUnknown[0].why, RulesOf(hardUnknown))
    else if owned != [] && forall i :: 0 <= i < |owned| ==> owned[i].state.NOT_AVAILABLE? then
      CategoryResult(category, NotApplicable, owned[0].why, RulesOf(owned))
    else if unknown != [] then CategoryResult(category, Uncertain, unknown[0].why, RulesOf(unknown))
    else CategoryResult(category, NotApplicable, xs[0].why, RulesOf(xs))
  }

  const ALL_CATEGORIES: seq<Category> := [
    INTERRUPT, HARD_CC, SOFT_CC, DISPEL, PURGE, DEFENSIVE_MAJOR, DEFENSIVE_MINOR, IMMUNITY, SELF_HEAL,
    EXTERNAL_DEFENSIVE, GROUP_UTILITY, MOVEMENT_UTILITY, BATTLE_REZ, BLOODLUST, CONSUMABLE]

  function OfCategory(rules: seq<Rule>, category: Category): seq<Rule> {
    if rules == [] then []
    else (if rules[0].category == category then [rules[0]] else []) + OfCategory(rules[1..], category)
  }

  /** The result of one category for the rules of a resolved catalog. */
  function JudgeCategory(rules: seq<Rule>, category: Category, e: Evidence): CategoryResult {
    var own := OfCategory(rules, category);
    if own == [] then CategoryResult(category, NotApplicable, NoRulesForCategory, [])
    else if category.CONSUMABLE? then CategoryResult(category, Applicable, SharedConsumable, own)
    else if category.BATTLE_REZ? || category.BLOODLUST? then CategoryResult(category, Applicable, OptionalGroup, own)
    else Aggregate(category, ResolveAll(own, e))
  }

  /** The result at `ALL_CATEGORIES[i]`. */
  function Judge(catalog: CatalogResult, category: Category, e: Evidence): CategoryResult {
    match catalog
    case Refused(reason, _, _, _, _) => CategoryResult(category, NotApplicable, CatalogRefused(reason), [])
    case Supported(slice) => JudgeCategory(slice.rules, category, e)
  }

  /** `resolveCatalogForApplicability`: the given context, or the registry; shared rules always included. */
  function CatalogFor(w: World, catalog: Option<Context>, l: Lookup): CatalogResult {
    var lookup := l.(includeShared := true);
    if catalog.Some? then ContextResolveCatalog(w, catalog.value, lookup) else ResolveCatalog(w, lookup)
  }

  /** The catalog judged, if served, holds exactly the rules of the pool to be served when shared ones are included. */
  lemma CatalogForServes(w: World, catalog: Option<Context>, l: Lookup)
    ensures var result := CatalogFor(w, catalog, l);
      var (classSlug, specSlug) := Identity(w, l);
      result.Supported? ==>
        && result.slice.classSlug == classSlug && result.slice.specSlug == specSlug
        && IsChoice(SearchedPool(w, catalog, l), r => IsForRun(r, classSlug, specSlug, l), result.slice.rules)
  {
    var all := l.(includeShared := true);
    var (classSlug, specSlug) := Identity(w, l);
    assert Identity(w, all) == Identity(w, l) && SearchedPool(w, catalog, all) == SearchedPool(w, catalog, l);
    CatalogServesExactly(w, catalog, all);
    var result := CatalogFor(w, catalog, l);
    hide ResolveCatalog, ContextResolveCatalog, IsChoice, SearchedPool, Identity;
    if result.Supported? {
      SameChoice(SearchedPool(w, catalog, l), ServedBy(classSlug, specSlug, all),
                 r => IsForRun(r, classSlug, specSlug, l), result.slice.rules);
    }
  }

  /**
    A rule of the class and specialization, in the role if one is asked; or a shared one, racials only if asked for.
   */
  predicate IsForRun(r: Rule, classSlug: string, specSlug: string, l: Lookup) {
    match r.classSlug
    case None => l.includeRacials || !IsRacial(r)
    case Some(own) =>
      own == classSlug && (r.specSlugs == [] || specSlug in r.specSlugs) && (l.role.Some? ==> l.role.value in r.roles)
  }

  // ---- what the evidence says, without the steps of the code ----

  /** One of the ids of the rule is among these. */
  predicate HasOneOf(ids: Option<seq<int>>, r: Rule) {
    ids.Some? && exists id :: id in ids.value && (id in r.spellIds || id in r.aliases)
  }

  /** Some race of the rule is the race of the run, both normalized. */
  predicate AdmitsRace(r: Rule, e: Evidence) {
    && RaceOf(e).Some? && e.raceOf(RaceOf(e).value).Some?
    && exists slug :: slug in r.raceSlugs && e.raceOf(slug) == e.raceOf(RaceOf(e).value)
  }

  /** The rule was used, or its race gate is open and its talent, if it needs one, is known to be taken. */
  predicate CanUse(r: Rule, e: Evidence) {
    || HasOneOf(e.observed, r)
    || ((r.raceSlugs == [] || AdmitsRace(r, e)) && (NeedsTalent(r) ==> HasOneOf(e.talents, r)))
  }

  /** Nothing excludes the rule, but the talents it needs are not known. */
  predicate LacksTalents(r: Rule, e: Evidence) {
    && !HasOneOf(e.observed, r) && (r.raceSlugs == [] || AdmitsRace(r, e))
    && NeedsTalent(r) && e.talents.None?
  }

  /** It is gated by race, and the race is not known. */
  predicate LacksRace(r: Rule, e: Evidence) {
    !HasOneOf(e.observed, r) && r.raceSlugs != [] && RaceOf(e).None?
  }

  predicate IsOpen(r: Rule, e: Evidence) {
    LacksTalents(r, e) || LacksRace(r, e)
  }

  /** The reason given for a rule, from the evidence. */
  predicate IsReason(r: Rule, e: Evidence, why: Why) {
    var used, gated, fits := HasOneOf(e.observed, r), r.raceSlugs != [], AdmitsRace(r, e);
    match why
    case ObservedUsage => used
    case RaceDataUnavailable => LacksRace(r, e)
    case RaceNotCompatible => !used && gated && RaceOf(e).Some? && !fits
    case RaceCompatible => !used && gated && fits && r.availability.SHARED?
    case Baseline => !used && (gated ==> fits) && r.availability.BASELINE?
    case FormDependent => !used && (gated ==> fits) && r.availability.FORM_DEPENDENT?
    case PetDependent => !used && (gated ==> fits) && r.availability.PET_DEPENDENT?
    case SharedRule => !used && !gated && r.availability.SHARED?
    case TalentDataUnavailable => LacksTalents(r, e)
    case TalentSelected => !used && (gated ==> fits) && NeedsTalent(r) && HasOneOf(e.talents, r)
    case TalentNotSelected =>
      !used && (gated ==> fits) && NeedsTalent(r) && e.talents.Some? && !HasOneOf(e.talents, r)
    case _ => false
  }

  lemma AnyOfExactly(ids: Option<seq<int>>, r: Rule)
    ensures HasOneOf(ids, r) <==> ids.Some? && AnyOf(ids.value, r)
  {
    if ids.Some? && AnyOf(ids.value, r) {
      var i :| 0 <= i < |ids.value| && ids.value[i] in OwnIds(r);
      var id := ids.value[i];
      assert id in ids.value && (id in r.spellIds || id in r.aliases);
      assert HasOneOf(ids, r);
    }
    if HasOneOf(ids, r) {
      var id :| id in ids.value && (id in r.spellIds || id in r.aliases);
      var i :| 0 <= i < |ids.value| && ids.value[i] == id;
      assert ids.value[i] in OwnIds(r);
      assert AnyOf(ids.value, r);
    }
  }

  lemma RaceFitsExactly(r: Rule, e: Evidence)
    ensures RaceFits(r, e) <==> AdmitsRace(r, e)
  {
    if RaceFits(r, e) {
      var i :| 0 <= i < |r.raceSlugs| && e.raceOf(r.raceSlugs[i]) == e.raceOf(RaceOf(e).value);
      assert r.raceSlugs[i] in r.raceSlugs;
    }
    if AdmitsRace(r, e) {
      var slug :| slug in r.raceSlugs && e.raceOf(slug) == e.raceOf(RaceOf(e).value);
      var i :| 0 <= i < |r.raceSlugs| && r.raceSlugs[i] == slug;
    }
  }

  /** A rule is available exactly when it can be used and unknown exactly when it is open, for the reason that holds. */
  lemma ResolvedExactly(r: Rule, e: Evidence)
    ensures Resolve(r, e).rule == r
    ensures Resolve(r, e).state == AVAILABLE <==> CanUse(r, e)
    ensures Resolve(r, e).state == UNKNOWN <==> IsOpen(r, e)
    ensures Resolve(r, e).state == NOT_AVAILABLE <==> !CanUse(r, e) && !IsOpen(r, e)
    ensures IsHardUnknown(Resolve(r, e)) <==> LacksTalents(r, e)
    ensures forall why :: IsReason(r, e, why) <==> why == Resolve(r, e).why
  {
    AnyOfExactly(e.observed, r);
    AnyOfExactly(e.talents, r);
    RaceFitsExactly(r, e);
    assert AdmitsRace(r, e) ==> RaceOf(e).Some? && r.raceSlugs != [];
    assert HasOneOf(e.talents, r) ==> e.talents.Some?;
    hide AnyOf, HasOneOf, RaceFits, AdmitsRace, RaceOf;
  }

  predicate IsClassRule(r: Rule) {
    r.classSlug.Some?
  }

  function Usable(e: Evidence): Rule -> bool {
    r => CanUse(r, e)
  }

  function Wanting(e: Evidence): Rule -> bool {
    r => LacksTalents(r, e)
  }

  function Undecided(e: Evidence): Rule -> bool {
    r => IsOpen(r, e)
  }

  function InCategory(category: Category): Rule -> bool {
    (r: Rule) => r.category == category
  }

  /** The reason is that of the first of the rules. */
  predicate IsFirstReason(rules: seq<Rule>, e: Evidence, why: Why) {
    rules != [] && IsReason(rules[0], e, why)
  }

  /**
    A category judged on its rules: applicable with the rules that can be used; or else uncertain with those that lack
    talents; or else closed by its class rules if they are all excluded; or
        else uncertain with those that lack the race.
   */
  ghost predicate IsJudged(own: seq<Rule>, e: Evidence, result: CategoryResult) {
    var owned := Those(own, IsClassRule);
    IsSettled(own, Those(own, Usable(e)), Those(own, Wanting(e)), Those(own, Undecided(e)), owned,
              owned != [] && (forall r :: r in owned ==> !IsOpen(r, e)), e, result)
  }

  predicate IsSettled(own: seq<Rule>, usable: seq<Rule>, wanting: seq<Rule>, open: seq<Rule>, owned: seq<Rule>,
                      closed: bool, e: Evidence, result: CategoryResult)
  {
    && IsFirstReason(result.rules, e, result.why)
    && (result.state == Applicable <==> usable != [])
    && (result.state == Uncertain <==> usable == [] && (wanting != [] || (open != [] && !closed)))
    && result.rules ==
       if usable != [] then usable else if wanting != [] then wanting
       else if closed then owned else if open != [] then open else own
  }

  /** Categories that are expected of the group, not of the character. */
  predicate IsOptional(category: Category) {
    category.CONSUMABLE? || category.BATTLE_REZ? || category.BLOODLUST?
  }

  /** The result for one category of a served catalog, by the evidence. */
  ghost predicate NamesItsRules(rules: seq<Rule>, e: Evidence, result: CategoryResult) {
    var own := Those(rules, InCategory(result.category));
    if own == [] then result.state == NotApplicable && result.why == NoRulesForCategory && result.rules == []
    else if IsOptional(result.category) then
      && result.state == Applicable && result.rules == own
      && result.why == if result.category.CONSUMABLE? then SharedConsumable else OptionalGroup
    else IsJudged(own, e, result)
  }

  /** The result of one category: a refused lookup closes it with its reason; a served one is judged by the evidence. */
  ghost predicate IsResultFor(catalog: CatalogResult, category: Category, e: Evidence, result: CategoryResult) {
    && result.category == category
    && (catalog.Refused? ==>
          result.state == NotApplicable && result.why == CatalogRefused(catalog.reason) && result.rules == [])
    && (catalog.Supported? ==> NamesItsRules(catalog.slice.rules, e, result))
  }

  lemma JudgeIsResult(catalog: CatalogResult, category: Category, e: Evidence)
    ensures IsResultFor(catalog, category, e, Judge(catalog, category, e))
  {
    hide JudgeCategory, NamesItsRules;
    if catalog.Supported? {
      JudgedNamesItsRules(catalog.slice.rules, category, e);
    }
  }

  /** `getApplicableAbilityCategories`: one result for every category, in order. */
  method GetApplicableAbilityCategories(w: World, catalog: Option<Context>, l: Lookup, e: Evidence)
    returns (results: seq<CategoryResult>)
    ensures |results| == |ALL_CATEGORIES|
    ensures forall i :: 0 <= i < |results| ==> IsResultFor(CatalogFor(w, catalog, l), ALL_CATEGORIES[i], e, results[i])
  {
    var resolved := CatalogFor(w, catalog, l);
    results := [];
    hide CatalogFor, Judge, IsResultFor;
    for i := 0 to |ALL_CATEGORIES|
      invariant |results| == i
      invariant forall k :: 0 <= k < i ==> IsResultFor(resolved, ALL_CATEGORIES[k], e, results[k])
    {
      JudgeIsResult(resolved, ALL_CATEGORIES[i], e);
      results := results + [Judge(resolved, ALL_CATEGORIES[i], e)];
    }
  }

  // ---- more evidence ----

  function Level(s: CategoryState): nat {
    match s
    case NotApplicable => 0
    case Uncertain => 1
    case Applicable => 2
  }

  predicate Seen(id: int, e: Evidence) {
    e.observed.Some? && id in e.observed.value
  }

  /** `more` has at least the observed ids of `e`, and the same talents and race. */
  ghost predicate ObservesMore(e: Evidence, more: Evidence) {
    && more == e.(observed := more.observed)
    && forall id :: Seen(id, e) ==> Seen(id, more)
  }

  lemma ObservedExactly(r: Rule, e: Evidence)
    ensures IsObserved(r, e) <==> exists id :: Seen(id, e) && id in OwnIds(r)
  {
    hide OwnIds;
    if IsObserved(r, e) {
      var i :| 0 <= i < |e.observed.value| && e.observed.value[i] in OwnIds(r);
      assert Seen(e.observed.value[i], e);
    }
    if id :| Seen(id, e) && id in OwnIds(r) {
      var i :| 0 <= i < |e.observed.value| && e.observed.value[i] == id;
      assert AnyOf(e.observed.value, r);
    }
  }

  /** An observation makes a rule available or changes nothing about it. */
  lemma ObservationDecides(r: Rule, e: Evidence, more: Evidence)
    requires ObservesMore(e, more)
    ensures Resolve(r, more) == Resolve(r, e) || Resolve(r, more).state == AVAILABLE
    ensures Resolve(r, e).state == AVAILABLE ==> Resolve(r, more).state == AVAILABLE
  {
    ObservedExactly(r, e);
    ObservedExactly(r, more);
    assert RaceOf(more) == RaceOf(e) && RaceFits(r, more) == RaceFits(r, e);
    hide OwnIds;
  }

  lemma FilteredAvailable(rules: seq<Rule>, e: Evidence)
    ensures (Filter(IsAvailable, ResolveAll(rules, e)) != [])
      <==> (exists i :: 0 <= i < |rules| && Resolve(rules[i], e).state == AVAILABLE)
  {
    hide Resolve;
    var xs := ResolveAll(rules, e);
    var available := Filter(IsAvailable, xs);
    if available != [] {
      assert available[0] in xs;
      var i :| 0 <= i < |xs| && xs[i] == available[0];
      assert Resolve(rules[i], e).state == AVAILABLE;
    }
    if i :| 0 <= i < |rules| && Resolve(rules[i], e).state == AVAILABLE {
      assert xs[i] in available;
    }
  }

  lemma FilteredRules(rules: seq<Rule>, e: Evidence, r: Rule)
    ensures r in RulesOf(Filter(IsAvailable, ResolveAll(rules, e))) <==> r in rules && Resolve(r, e).state == AVAILABLE
  {
    hide Resolve;
    var xs := ResolveAll(rules, e);
    var available := Filter(IsAvailable, xs);
    var named := RulesOf(available);
    if r in named {
      var j :| 0 <= j < |named| && named[j] == r;
      assert available[j] in xs;
      var i :| 0 <= i < |xs| && xs[i] == available[j];
      assert xs[i] == Resolve(rules[i], e) && xs[i].rule == r;
      ResolvesItself(rules[i], e);
    }
    if r in rules && Resolve(r, e).state == AVAILABLE {
      var i :| 0 <= i < |rules| && rules[i] == r;
      assert xs[i] in available;
      var j :| 0 <= j < |available| && available[j] == xs[i];
      ResolvesItself(r, e);
      assert named[j] == r;
    }
  }

  lemma ResolvesItself(r: Rule, e: Evidence)
    ensures Resolve(r, e).rule == r
  {
    hide OwnIds;
  }

  lemma AggregateAvailable(category: Category, xs: seq<Resolved>)
    ensures Aggregate(category, xs).state == Applicable <==> Filter(IsAvailable, xs) != []
    ensures Filter(IsAvailable, xs) != [] ==> Aggregate(category, xs).rules == RulesOf(Filter(IsAvailable, xs))
  {
    hide Filter, RulesOf, IsAvailable, IsUnknown, IsHardUnknown, IsClassOwned;
  }

  lemma ApplicableByState(rules: seq<Rule>, e: Evidence, category: Category, r: Rule)
    ensures var result := Aggregate(category, ResolveAll(rules, e));
      (result.state == Applicable <==> exists i :: 0 <= i < |rules| && Resolve(rules[i], e).state == AVAILABLE)
      && (result.state == Applicable ==> (r in result.rules <==> r in rules && Resolve(r, e).state == AVAILABLE))
  {
    hide *;
    FilteredAvailable(rules, e);
    FilteredRules(rules, e, r);
    AggregateAvailable(category, ResolveAll(rules, e));
  }

  /**
    A category judged on its rules is applicable exactly when the evidence lets one of them be used, and then names
    exactly those.
   */
  lemma ApplicableExactly(rules: seq<Rule>, e: Evidence, category: Category, r: Rule)
    ensures var result := Aggregate(category, ResolveAll(rules, e));
      (result.state == Applicable <==> exists i :: 0 <= i < |rules| && CanUse(rules[i], e))
      && (result.state == Applicable ==> (r in result.rules <==> r in rules && CanUse(r, e)))
  {
    ApplicableByState(rules, e, category, r);
    ResolvedExactly(r, e);
    forall i | 0 <= i < |rules|
      ensures CanUse(rules[i], e) <==> Resolve(rules[i], e).state == AVAILABLE
    {
      ResolvedExactly(rules[i], e);
    }
    hide Aggregate, ResolveAll, Resolve, CanUse;
  }

  lemma {:induction false} OfCategoryExactly(rules: seq<Rule>, category: Category)
    ensures forall r :: r in OfCategory(rules, category) <==> r in rules && r.category == category
  {
    if rules != [] {
      OfCategoryExactly(rules[1..], category);
      assert rules == [rules[0]] + rules[1..];
    }
  }

  /** Filtering what rules resolve to is choosing the rules by the evidence. */
  lemma {:induction false} FilteredThose(p: Resolved -> bool, q: Rule -> bool, rules: seq<Rule>, e: Evidence)
    requires forall r :: r in rules ==> (p(Resolve(r, e)) <==> q(r))
    ensures RulesOf(Filter(p, ResolveAll(rules, e))) == Those(rules, q)
  {
    hide Resolve;
    if rules != [] {
      FilteredThose(p, q, rules[1..], e);
      ResolvesItself(rules[0], e);
      var x, rest := Resolve(rules[0], e), Filter(p, ResolveAll(rules[1..], e));
      assert ResolveAll(rules, e) == [x] + ResolveAll(rules[1..], e);
      assert ([x] + rest)[1..] == rest;
    }
  }

  lemma {:induction false} FilterTwice(p: Resolved -> bool, q: Resolved -> bool, xs: seq<Resolved>)
    requires forall x :: x in xs && q(x) ==> p(x)
    ensures Filter(q, Filter(p, xs)) == Filter(q, xs)
  {
    if xs != [] {
      FilterTwice(p, q, xs[1..]);
      var rest := Filter(p, xs[1..]);
      assert xs[0] in xs && ([xs[0]] + rest)[1..] == rest;
      if p(xs[0]) {
        assert Filter(p, xs) == [xs[0]] + rest;
      } else {
        assert Filter(p, xs) == rest;
      }
    }
  }

  lemma {:induction false} AllThose(rules: seq<Rule>, e: Evidence)
    ensures RulesOf(ResolveAll(rules, e)) == rules
  {
    hide Resolve;
    var named := RulesOf(ResolveAll(rules, e));
    forall i | 0 <= i < |rules|
      ensures named[i] == rules[i]
    {
      ResolvesItself(rules[i], e);
    }
  }

  /** The first of the filtered gives its reason. */
  lemma FirstGivesReason(xs: seq<Resolved>, rules: seq<Rule>, e: Evidence)
    requires xs != [] && forall x :: x in xs ==> x.rule in rules && x == Resolve(x.rule, e)
    ensures IsFirstReason(RulesOf(xs), e, xs[0].why)
  {
    hide Resolve, IsReason;
    assert xs[0] in xs;
    ResolvedExactly(xs[0].rule, e);
  }

  lemma FilteredAreResolved(p: Resolved -> bool, rules: seq<Rule>, e: Evidence)
    ensures forall x :: x in Filter(p, ResolveAll(rules, e)) ==> x.rule in rules && x == Resolve(x.rule, e)
  {
    AllAreResolved(rules, e);
    hide Resolve, ResolveAll;
  }

  /** The filters of the code choose the rules by the evidence. */
  lemma FiltersChoose(own: seq<Rule>, e: Evidence)
    ensures var xs := ResolveAll(own, e);
      && RulesOf(Filter(IsAvailable, xs)) == Those(own, Usable(e))
      && RulesOf(Filter(IsUnknown, xs)) == Those(own, Undecided(e))
      && RulesOf(Filter(IsHardUnknown, Filter(IsUnknown, xs))) == Those(own, Wanting(e))
      && RulesOf(Filter(IsClassOwned, xs)) == Those(own, IsClassRule)
      && RulesOf(xs) == own
  {
    forall r | r in own
      ensures IsAvailable(Resolve(r, e)) == CanUse(r, e) && IsUnknown(Resolve(r, e)) == IsOpen(r, e)
      ensures IsHardUnknown(Resolve(r, e)) == LacksTalents(r, e) && IsClassOwned(Resolve(r, e)) == IsClassRule(r)
    {
      ResolvedExactly(r, e);
    }
    hide Resolve, CanUse, IsOpen, LacksTalents, Filter, Those, RulesOf, ResolveAll;
    FilteredThose(IsAvailable, Usable(e), own, e);
    FilteredThose(IsUnknown, Undecided(e), own, e);
    FilteredThose(IsHardUnknown, Wanting(e), own, e);
    FilteredThose(IsClassOwned, IsClassRule, own, e);
    FilterTwice(IsUnknown, IsHardUnknown, ResolveAll(own, e));
    AllThose(own, e);
  }

  lemma ExcludedAt(own: seq<Rule>, e: Evidence, r: Rule)
    requires Those(own, Usable(e)) == [] && r in own
    ensures Resolve(r, e).state.NOT_AVAILABLE? <==> !IsOpen(r, e)
  {
    ResolvedExactly(r, e);
    assert r !in Those(own, Usable(e));
    assert !Usable(e)(r);
    hide Resolve, CanUse, IsOpen, Those;
  }

  /** Where no rule can be used, class rules are excluded exactly when none of them is open. */
  lemma ExcludedExactly(own: seq<Rule>, e: Evidence)
    requires Those(own, Usable(e)) == []
    ensures var owned := Filter(IsClassOwned, ResolveAll(own, e));
      (forall i :: 0 <= i < |owned| ==> owned[i].state.NOT_AVAILABLE?)
      <==> (forall r :: r in Those(own, IsClassRule) ==> !IsOpen(r, e))
  {
    var owned := Filter(IsClassOwned, ResolveAll(own, e));
    FiltersChoose(own, e);
    FilteredAreResolved(IsClassOwned, own, e);
    hide Filter, Those, Resolve, CanUse, IsOpen, ResolveAll, Usable, IsClassRule;
    var rules := Those(own, IsClassRule);
    forall i | 0 <= i < |owned|
      ensures rules[i] == owned[i].rule && (owned[i].state.NOT_AVAILABLE? <==> !IsOpen(rules[i], e))
    {
      assert owned[i] in owned;
      ExcludedAt(own, e, owned[i].rule);
    }
    assert |rules| == |owned|;
  }

  /** The resolutions are those of rules in the list, and the first gives its reason. */
  ghost predicate Reasoned(e: Evidence, ys: seq<Resolved>) {
    ys != [] ==> IsFirstReason(RulesOf(ys), e, ys[0].why)
  }

  lemma FilterReasoned(p: Resolved -> bool, own: seq<Rule>, e: Evidence)
    ensures Reasoned(e, Filter(p, ResolveAll(own, e))) && Reasoned(e, ResolveAll(own, e))
  {
    FilteredAreResolved(p, own, e);
    AllAreResolved(own, e);
    hide Filter, ResolveAll, Resolve, RulesOf, IsFirstReason;
    if Filter(p, ResolveAll(own, e)) != [] {
      FirstGivesReason(Filter(p, ResolveAll(own, e)), own, e);
    }
    if ResolveAll(own, e) != [] {
      FirstGivesReason(ResolveAll(own, e), own, e);
    }
  }

  lemma JudgedByEvidence(own: seq<Rule>, category: Category, e: Evidence)
    requires own != []
    ensures IsJudged(own, e, Aggregate(category, ResolveAll(own, e)))
    ensures Aggregate(category, ResolveAll(own, e)).category == category
  {
    var xs := ResolveAll(own, e);
    var available, unknown, owned := Filter(IsAvailable, xs), Filter(IsUnknown, xs), Filter(IsClassOwned, xs);
    var hardUnknown := Filter(IsHardUnknown, unknown);
    assert Aggregate(category, xs) == Settle(category, xs, available, unknown, hardUnknown, owned);
    hide *;
    FiltersChoose(own, e);
    FilterTwice(IsUnknown, IsHardUnknown, xs) by {
      HardIsUnknown();
    }
    if Those(own, Usable(e)) == [] {
      ExcludedExactly(own, e);
    }
    FilterReasoned(IsAvailable, own, e);
    FilterReasoned(IsUnknown, own, e);
    FilterReasoned(IsHardUnknown, own, e);
    FilterReasoned(IsClassOwned, own, e);
    SettlesByEvidence(own, category, e, xs, available, unknown, hardUnknown, owned);
  }

  lemma HardIsUnknown()
    ensures forall x :: IsHardUnknown(x) ==> IsUnknown(x)
  {
  }

  lemma SettlesByEvidence(own: seq<Rule>, category: Category, e: Evidence, xs: seq<Resolved>, available: seq<Resolved>,
                          unknown: seq<Resolved>, hardUnknown: seq<Resolved>, owned: seq<Resolved>)
    requires own != [] && RulesOf(xs) == own
    requires RulesOf(available) == Those(own, Usable(e)) && RulesOf(unknown) == Those(own, Undecided(e))
    requires RulesOf(hardUnknown) == Those(own, Wanting(e)) && RulesOf(owned) == Those(own, IsClassRule)
    requires Those(own, Usable(e)) == [] ==>
      ((forall i :: 0 <= i < |owned| ==> owned[i].state.NOT_AVAILABLE?)
       <==> (forall r :: r in Those(own, IsClassRule) ==> !IsOpen(r, e)))
    requires Reasoned(e, xs) && Reasoned(e, available) && Reasoned(e, unknown)
    requires Reasoned(e, hardUnknown) && Reasoned(e, owned)
    ensures IsJudged(own, e, Settle(category, xs, available, unknown, hardUnknown, owned))
    ensures Settle(category, xs, available, unknown, hardUnknown, owned).category == category
  {
    SameEmptiness(available);
    SameEmptiness(owned);
    hide Those, RulesOf, Settle, IsSettled, Reasoned, IsOpen, Usable, Wanting, Undecided, IsClassRule;
    var closed := RulesOf(owned) != [] && forall r :: r in RulesOf(owned) ==> !IsOpen(r, e);
    SettleCases(category, e, xs, available, unknown, hardUnknown, owned, closed);
  }

  lemma SettleCases(category: Category, e: Evidence, xs: seq<Resolved>, available: seq<Resolved>,
                    unknown: seq<Resolved>, hardUnknown: seq<Resolved>, owned: seq<Resolved>, closed: bool)
    requires xs != []
    requires available == [] ==>
      (closed <==> owned != [] && forall i :: 0 <= i < |owned| ==> owned[i].state.NOT_AVAILABLE?)
    requires Reasoned(e, xs) && Reasoned(e, available) && Reasoned(e, unknown)
    requires Reasoned(e, hardUnknown) && Reasoned(e, owned)
    ensures var result := Settle(category, xs, available, unknown, hardUnknown, owned);
      && IsSettled(RulesOf(xs), RulesOf(available), RulesOf(hardUnknown), RulesOf(unknown), RulesOf(owned), closed, e,
                   result)
      && result.category == category
  {
    SameEmptiness(available);
    SameEmptiness(unknown);
    SameEmptiness(hardUnknown);
    hide RulesOf, IsFirstReason;
  }

  lemma SameEmptiness(ys: seq<Resolved>)
    ensures RulesOf(ys) == [] <==> ys == []
  {
  }

  lemma AllAreResolved(rules: seq<Rule>, e: Evidence)
    ensures forall x :: x in ResolveAll(rules, e) ==> x.rule in rules && x == Resolve(x.rule, e)
  {
    hide Resolve;
    var xs := ResolveAll(rules, e);
    forall x | x in xs
      ensures x.rule in rules && x == Resolve(x.rule, e)
    {
      var i :| 0 <= i < |xs| && xs[i] == x;
      ResolvesItself(rules[i], e);
    }
  }

  lemma JudgedNamesItsRules(rules: seq<Rule>, category: Category, e: Evidence)
    ensures NamesItsRules(rules, e, JudgeCategory(rules, category, e))
    ensures JudgeCategory(rules, category, e).category == category
  {
    hide Aggregate, ResolveAll, Resolve, IsJudged;
    var own := OfCategory(rules, category);
    OfCategoryIsThose(rules, category);
    if own != [] {
      JudgedByEvidence(own, category, e);
    }
  }

  lemma {:induction false} OfCategoryIsThose(rules: seq<Rule>, category: Category)
    ensures OfCategory(rules, category) == Those(rules, InCategory(category))
  {
    if rules != [] {
      OfCategoryIsThose(rules[1..], category);
    }
  }

  lemma SameResolutions(rules: seq<Rule>, e: Evidence, f: Evidence)
    requires forall i :: 0 <= i < |rules| ==> Resolve(rules[i], e) == Resolve(rules[i], f)
    ensures ResolveAll(rules, e) == ResolveAll(rules, f)
  {
    hide *;
  }

  /** More observed ids lower no category judged on its rules, and drop no rule from an applicable one. */
  lemma AggregateMonotone(rules: seq<Rule>, e: Evidence, more: Evidence, category: Category, r: Rule)
    requires ObservesMore(e, more)
    ensures var before, after := Aggregate(category, ResolveAll(rules, e)),
      Aggregate(category, ResolveAll(rules, more));
      Level(before.state) <= Level(after.state)
      && (before.state == Applicable && r in before.rules ==> r in after.rules)
  {
    ApplicableByState(rules, e, category, r);
    ApplicableByState(rules, more, category, r);
    hide Aggregate, ResolveAll, Resolve;
    ObservationDecides(r, e, more);
    forall i | 0 <= i < |rules|
      ensures Resolve(rules[i], more) == Resolve(rules[i], e) || Resolve(rules[i], more).state == AVAILABLE
      ensures Resolve(rules[i], e).state == AVAILABLE ==> Resolve(rules[i], more).state == AVAILABLE
    {
      ObservationDecides(rules[i], e, more);
    }
    if forall i :: 0 <= i < |rules| ==> Resolve(rules[i], e) == Resolve(rules[i], more) {
      SameResolutions(rules, e, more);
    }
  }

  /**
    Observing more never lowers a category in the order not applicable, uncertain, applicable, and never drops a rule
    an applicable category named.
   */
  lemma ObservingNeverLowers(catalog: CatalogResult, e: Evidence, more: Evidence, category: Category, r: Rule)
    requires ObservesMore(e, more)
    ensures Level(Judge(catalog, category, e).state) <= Level(Judge(catalog, category, more).state)
    ensures (Judge(catalog, category, e).state == Applicable && r in Judge(catalog, category, e).rules)
      ==> (r in Judge(catalog, category, more).rules)
  {
    if catalog.Supported? {
      CategoryMonotone(catalog.slice.rules, e, more, category, r);
    }
    hide JudgeCategory;
  }

  lemma CategoryMonotone(rules: seq<Rule>, e: Evidence, more: Evidence, category: Category, r: Rule)
    requires ObservesMore(e, more)
    ensures Level(JudgeCategory(rules, category, e).state) <= Level(JudgeCategory(rules, category, more).state)
    ensures (JudgeCategory(rules, category, e).state == Applicable && r in JudgeCategory(rules, category, e).rules)
      ==> (r in JudgeCategory(rules, category, more).rules)
  {
    hide Aggregate, ResolveAll, OfCategory, ObservesMore, Level;
    AggregateMonotone(OfCategory(rules, category), e, more, category, r);
  }

  /** Talent data changes the resolution only of a rule left open for want of it. */
  lemma TalentsDecide(r: Rule, e: Evidence, ids: seq<int>)
    requires e.talents.None?
    ensures Resolve(r, e.(talents := Some(ids))) == Resolve(r, e) || Resolve(r, e).why == TalentDataUnavailable
    ensures Resolve(r, e).why == TalentDataUnavailable ==> IsHardUnknown(Resolve(r, e)) && NeedsTalent(r)
  {
    var f := e.(talents := Some(ids));
    assert IsObserved(r, f) == IsObserved(r, e) && RaceOf(f) == RaceOf(e) && RaceFits(r, f) == RaceFits(r, e);
    hide OwnIds, AnyOf, RaceOf, RaceFits;
  }

  lemma HardUnknownUncertain(rules: seq<Rule>, e: Evidence, category: Category, i: nat)
    requires i < |rules| && IsHardUnknown(Resolve(rules[i], e))
    ensures Aggregate(category, ResolveAll(rules, e)).state != NotApplicable
  {
    var xs := ResolveAll(rules, e);
    var unknown := Filter(IsUnknown, xs);
    var hardUnknown := Filter(IsHardUnknown, unknown);
    hide Resolve;
    assert xs[i] in unknown;
    assert xs[i] in hardUnknown;
    hide Filter, ResolveAll, RulesOf;
  }

  /**
    Filling in the missing talent data changes the state of uncertain categories only: a closed category keeps its
    whole result and an applicable one stays applicable.
   */
  lemma TalentsSettleOnlyUncertain(catalog: CatalogResult, e: Evidence, ids: seq<int>, category: Category)
    requires e.talents.None?
    ensures var before, after := Judge(catalog, category, e), Judge(catalog, category, e.(talents := Some(ids)));
      (before.state == NotApplicable ==> after == before) && (before.state == Applicable ==> after.state == Applicable)
  {
    if catalog.Supported? {
      CategoryTalents(catalog.slice.rules, e, ids, category);
    }
    hide JudgeCategory;
  }

  lemma CategoryTalents(rules: seq<Rule>, e: Evidence, ids: seq<int>, category: Category)
    requires e.talents.None?
    ensures var before := JudgeCategory(rules, category, e);
      var after := JudgeCategory(rules, category, e.(talents := Some(ids)));
      (before.state == NotApplicable ==> after == before) && (before.state == Applicable ==> after.state == Applicable)
  {
    hide Aggregate, ResolveAll, OfCategory;
    AggregateTalents(OfCategory(rules, category), e, ids, category);
  }

  lemma AggregateTalents(rules: seq<Rule>, e: Evidence, ids: seq<int>, category: Category)
    requires e.talents.None?
    ensures var before := Aggregate(category, ResolveAll(rules, e));
      var after := Aggregate(category, ResolveAll(rules, e.(talents := Some(ids))));
      (before.state == NotApplicable ==> after == before) && (before.state == Applicable ==> after.state == Applicable)
  {
    var f := e.(talents := Some(ids));
    hide Aggregate, ResolveAll, Resolve;
    if Aggregate(category, ResolveAll(rules, e)).state == NotApplicable {
      forall i | 0 <= i < |rules| ensures Resolve(rules[i], e) == Resolve(rules[i], f) {
        TalentsDecide(rules[i], e, ids);
        if Resolve(rules[i], e).why == TalentDataUnavailable {
          HardUnknownUncertain(rules, e, category, i);
        }
      }
      SameResolutions(rules, e, f);
    } else if Aggregate(category, ResolveAll(rules, e)).state == Applicable {
      if rules != [] {
        ApplicableByState(rules, e, category, rules[0]);
        var i :| 0 <= i < |rules| && Resolve(rules[i], e).state == AVAILABLE;
        TalentsDecide(rules[i], e, ids);
        ApplicableByState(rules, f, category, rules[0]);
        assert Resolve(rules[i], f).state == AVAILABLE;
      } else {
        SameResolutions(rules, e, f);
      }
    }
  }

  // ---- race data ----

  lemma UnknownReason(r: Rule, e: Evidence)
    requires RaceOf(e).Some?
    ensures Resolve(r, e).why != RaceDataUnavailable
  {
    hide IsObserved, RaceFits, AnyOf;
  }

  /** With the race known, a category judged on its rules is closed exactly when no rule is available or open. */
  lemma ClosedWhenAllUnavailable(rules: seq<Rule>, e: Evidence, category: Category)
    requires RaceOf(e).Some?
    ensures Aggregate(category, ResolveAll(rules, e)).state == NotApplicable
      <==> (forall i :: 0 <= i < |rules| ==> Resolve(rules[i], e).state == NOT_AVAILABLE)
  {
    var xs := ResolveAll(rules, e);
    hide Resolve;
    if i :| 0 <= i < |rules| && Resolve(rules[i], e).state != NOT_AVAILABLE {
      UnknownReason(rules[i], e);
      if Resolve(rules[i], e).state == AVAILABLE {
        ApplicableByState(rules, e, category, rules[i]);
      } else {
        HardUnknownUncertain(rules, e, category, i);
      }
    } else {
      assert forall x :: x in xs ==> x.state == NOT_AVAILABLE;
      NoneOpen(category, xs);
    }
  }

  lemma NoneFiltered(p: Resolved -> bool, xs: seq<Resolved>)
    requires forall x :: x in xs ==> !p(x)
    ensures Filter(p, xs) == []
  {
    if xs != [] {
      NoneFiltered(p, xs[1..]);
    }
  }

  lemma NoneOpen(category: Category, xs: seq<Resolved>)
    requires forall x :: x in xs ==> x.state == NOT_AVAILABLE
    ensures Aggregate(category, xs).state == NotApplicable
  {
    NoneFiltered(IsAvailable, xs);
    NoneFiltered(IsUnknown, xs);
    var hardUnknown := Filter(IsHardUnknown, Filter(IsUnknown, xs));
    hide Filter, RulesOf;
  }

  /** Unavailable class rules close a category that only race-gated shared rules leave open. */
  lemma ClassCloses(category: Category, xs: seq<Resolved>, k: nat)
    requires k < |xs| && IsClassOwned(xs[k])
    requires forall x :: x in xs ==> !IsAvailable(x) && !IsHardUnknown(x)
    requires forall x :: x in xs && IsClassOwned(x) ==> x.state.NOT_AVAILABLE?
    ensures Aggregate(category, xs).state == NotApplicable
  {
    var unknown, owned := Filter(IsUnknown, xs), Filter(IsClassOwned, xs);
    NoneFiltered(IsAvailable, xs);
    NoneFiltered(IsHardUnknown, unknown);
    assert xs[k] in owned;
    forall i | 0 <= i < |owned|
      ensures owned[i].state.NOT_AVAILABLE?
    {
      assert owned[i] in owned;
    }
    assert Aggregate(category, xs) == Settle(category, xs, [], unknown, [], owned);
    hide Filter, Aggregate;
    SettlesClosed(category, xs, unknown, owned);
  }

  lemma SettlesClosed(category: Category, xs: seq<Resolved>, unknown: seq<Resolved>, owned: seq<Resolved>)
    requires owned != [] && forall i :: 0 <= i < |owned| ==> owned[i].state.NOT_AVAILABLE?
    ensures Settle(category, xs, [], unknown, [], owned).state == NotApplicable
  {
  }

  /** A race-gated rule that the known race admits and talents do not exclude. */
  predicate RaceOpens(r: Rule, e: Evidence) {
    && r.raceSlugs != [] && RaceFits(r, e)
    && (NeedsTalent(r) ==> e.talents.None? || AnyOf(e.talents.value, r))
  }

  lemma RaceDecides(r: Rule, e: Evidence, slug: string)
    requires RaceOf(e).None? && RaceOf(e.(race := Some(slug))).Some?
    requires Resolve(r, e).state != AVAILABLE && !IsHardUnknown(Resolve(r, e))
    ensures Resolve(r, e.(race := Some(slug))).state == NOT_AVAILABLE <==> !RaceOpens(r, e.(race := Some(slug)))
  {
    var f := e.(race := Some(slug));
    assert IsObserved(r, f) == IsObserved(r, e);
    hide IsObserved, RaceFits, AnyOf, RaceOf;
  }

  /**
    Race data, unlike talent data, can reopen a category its class rules had closed: exactly when some race-gated rule
    of the category admits the race that became known and is not excluded by talents.
   */
  lemma RaceReopensExactly(rules: seq<Rule>, e: Evidence, slug: string, category: Category)
    requires RaceOf(e).None? && RaceOf(e.(race := Some(slug))).Some?
    requires Aggregate(category, ResolveAll(rules, e)).state == NotApplicable
    ensures Aggregate(category, ResolveAll(rules, e.(race := Some(slug)))).state != NotApplicable
      <==> (exists i :: 0 <= i < |rules| && RaceOpens(rules[i], e.(race := Some(slug))))
  {
    var f := e.(race := Some(slug));
    hide Aggregate, ResolveAll, Resolve, RaceOpens, RaceOf, IsHardUnknown;
    ClosedWhenAllUnavailable(rules, f, category);
    forall i | 0 <= i < |rules|
      ensures Resolve(rules[i], f).state == NOT_AVAILABLE <==> !RaceOpens(rules[i], f)
    {
      ApplicableByState(rules, e, category, rules[i]);
      if IsHardUnknown(Resolve(rules[i], e)) {
        HardUnknownUncertain(rules, e, category, i);
      }
      RaceDecides(rules[i], e, slug);
    }
  }

  const WARRIOR_TALENT: Rule := Rule("warrior.storm_bolt", [107570], [], [], [], [], Some("warrior"), [], [], HARD_CC,
                                     PLAYER, TALENT, [], None, true, false)
  const TAUREN_STOMP: Rule := Rule("shared.racial.war_stomp", [20549], [], [], [], [], None, [], [], HARD_CC,
                                   PLAYER, SHARED, ["tauren"], None, true, false)

  /** An unselected class talent closes a category; learning the race opens it. */
  lemma RaceReopensClosed(e: Evidence)
    requires e == Evidence(Some([]), None, None, (s: string) => Some(s))
    ensures Aggregate(HARD_CC, ResolveAll([WARRIOR_TALENT, TAUREN_STOMP], e)).state == NotApplicable
    ensures Aggregate(HARD_CC, ResolveAll([WARRIOR_TALENT, TAUREN_STOMP], e.(race := Some("tauren")))).state ==
      Applicable
  {
    var rules := [WARRIOR_TALENT, TAUREN_STOMP];
    var f := e.(race := Some("tauren"));
    StompOpens(e, f);
    TwoResolved(WARRIOR_TALENT, TAUREN_STOMP, e);
    hide Resolve, ResolveAll, Aggregate, WARRIOR_TALENT, TAUREN_STOMP;
    ApplicableByState(rules, f, HARD_CC, rules[1]);
    ClassCloses(HARD_CC, ResolveAll(rules, e), 0);
  }

  lemma TwoResolved(a: Rule, b: Rule, e: Evidence)
    ensures ResolveAll([a, b], e) == [Resolve(a, e), Resolve(b, e)]
  {
    hide Resolve;
    assert [a, b][1..] == [b] && [b][1..] == [];
  }

  lemma StompOpens(e: Evidence, f: Evidence)
    requires e == Evidence(Some([]), None, None, (s: string) => Some(s)) && f == e.(race := Some("tauren"))
    ensures Resolve(TAUREN_STOMP, f).state == AVAILABLE
    ensures Resolve(WARRIOR_TALENT, e) == Resolved(WARRIOR_TALENT, NOT_AVAILABLE, TalentNotSelected)
    ensures Resolve(TAUREN_STOMP, e) == Resolved(TAUREN_STOMP, UNKNOWN, RaceDataUnavailable)
    ensures WARRIOR_TALENT.classSlug.Some? && TAUREN_STOMP.classSlug.None?
  {
    assert RaceFits(TAUREN_STOMP, f) by {
      assert f.raceOf(TAUREN_STOMP.raceSlugs[0]) == Some("tauren");
    }
  }
}
