/**
  Lookups in the ability registry and in catalog contexts (packages/abilities/src/registry.ts and
  catalog-context.ts). The two call each other; what ends the recursion is that a context made from rules always
  passes its rules on.
 */
module CatalogRegistry {
  import opened Wrappers
  import opened Sorting
  import opened Catalog
  import opened CatalogValidation
  import opened Choices

  /** What a context knows of classes and races. */
  datatype TopologySpec = TopologySpec(slug: string, role: Role, supportState: Option<SupportState>)
  datatype TopologyClass = TopologyClass(slug: string, supportState: Option<SupportState>, specs: seq<TopologySpec>)
  datatype Topology = Topology(classes: seq<TopologyClass>, races: seq<string>)

  datatype ContextKind = StaticKind | ReleaseKind

  /** The static context, or one made from rules and a topology under an identity of either kind. */
  datatype Context = StaticContext | RulesContext(kind: ContextKind, rules: seq<Rule>, topology: Topology)

  datatype Version = Version(gameVersion: string, seasonSlug: Option<string>, snapshot: string)

  /** The module-level data, the identity normalizer, key comparison, and the active context of the process. */
  datatype World = World(
    registered: seq<Rule>,
    consumables: seq<Rule>,
    warlock: seq<Rule>,
    matrix: Matrix,
    current: Version,
    historical: seq<Version>,
    season: string,
    canonicalize: (Option<string>, Option<string>) -> (Option<string>, Option<string>),
    keyCompare: (string, string) -> int,
    active: Option<Context>)

  function Truthy(s: Option<string>): Option<string> {
    if s == Some("") then None else s
  }

  /** Only a release-backed context overrides the static registry. */
  predicate Overrides(w: World) {
    w.active.Some? && w.active.value.RulesContext? && w.active.value.kind.ReleaseKind?
  }

  // ---- spell ids ----

  predicate IntLe(a: int, b: int) {
    a <= b
  }

  function DropRepeats(s: seq<int>): seq<int> {
    if s == [] then []
    else if s[0] in s[1..] then DropRepeats(s[1..])
    else [s[0]] + DropRepeats(s[1..])
  }

  function Positive(s: seq<int>): seq<int> {
    if s == [] then [] else (if s[0] > 0 then [s[0]] else []) + Positive(s[1..])
  }

  function AllIds(r: Rule): seq<int> {
    r.spellIds + r.aliases + r.activationSpellIds + r.activationBuffIds + r.triggeredEffectIds
  }

  /** `ruleResolvableSpellIds`. */
  function ResolvableIds(r: Rule): seq<int> {
    Sort(IntLe, DropRepeats(Positive(AllIds(r))))
  }

  lemma {:induction false} PositiveExactly(s: seq<int>, id: int)
    ensures id in Positive(s) <==> id > 0 && id in s
  {
    if s != [] {
      PositiveExactly(s[1..], id);
      assert s == [s[0]] + s[1..];
    }
  }

  lemma {:induction false} DropRepeatsExactly(s: seq<int>, id: int)
    ensures id in DropRepeats(s) <==> id in s
    ensures forall i, j :: 0 <= i < j < |DropRepeats(s)| ==> DropRepeats(s)[i] != DropRepeats(s)[j]
  {
    if s != [] {
      DropRepeatsExactly(s[1..], id);
      DropRepeatsExactly(s[1..], s[0]);
      assert s == [s[0]] + s[1..];
    }
  }

  /** Exactly the positive listed ids resolve to a rule. */
  lemma ResolvableExactly(r: Rule, id: int)
    ensures id in ResolvableIds(r) <==> id > 0 && id in AllIds(r)
  {
    PositiveExactly(AllIds(r), id);
    DropRepeatsExactly(Positive(AllIds(r)), id);
    MemberOfSort(IntLe, DropRepeats(Positive(AllIds(r))), id);
  }

  /** They are listed once each, in ascending order. */
  lemma ResolvableAscend(r: Rule)
    ensures forall i, j :: 0 <= i < j < |ResolvableIds(r)| ==> ResolvableIds(r)[i] < ResolvableIds(r)[j]
  {
    var ids, once := ResolvableIds(r), DropRepeats(Positive(AllIds(r)));
    DropRepeatsExactly(Positive(AllIds(r)), 0);
    SortSorts(IntLe, once);
    SortPermutes(IntLe, once);
    hide DropRepeats, Positive, AllIds, Sort;
    forall i, j | 0 <= i < j < |ids|
      ensures ids[i] < ids[j]
    {
      assert IntLe(ids[i], ids[j]);
      if ids[i] == ids[j] {
        OnceCounted(once, ids[i]);
        TwiceCounted(ids, i, j);
      }
    }
  }

  lemma {:induction false} OnceCounted(s: seq<int>, x: int)
    requires forall i, j :: 0 <= i < j < |s| ==> s[i] != s[j]
    ensures multiset(s)[x] <= 1
  {
    if s != [] {
      OnceCounted(s[1..], x);
      assert s == [s[0]] + s[1..];
      assert s[0] == x ==> x !in s[1..];
    }
  }

  lemma TwiceCounted(s: seq<int>, i: nat, j: nat)
    requires i < j < |s| && s[i] == s[j]
    ensures multiset(s)[s[i]] >= 2
  {
    assert s == s[..j] + [s[j]] + s[j + 1..];
    assert s[..j][i] == s[i];
  }

  // ---- resolution of one spell id ----

  datatype Query = Query(spellId: int, classSlug: Option<string>, specSlug: Option<string>)

  datatype Resolution =
    | Matched(rule: Rule, spellId: int)
    | Ambiguous(rules: seq<Rule>, spellId: int)
    | Unmatched(spellId: int)

  predicate Matches(r: Rule, spellId: int, classSlug: Option<string>, specSlug: Option<string>) {
    && spellId in ResolvableIds(r)
    && !(Truthy(classSlug).Some? && r.classSlug.Some? && r.classSlug != classSlug)
    && !(Truthy(specSlug).Some? && r.classSlug.Some? && r.specSlugs != [] && specSlug.value !in r.specSlugs)
  }

  function FilterPool(pool: seq<Rule>, spellId: int, classSlug: Option<string>, specSlug: Option<string>): seq<Rule> {
    if pool == [] then []
    else (if Matches(pool[0], spellId, classSlug, specSlug) then [pool[0]] else [])
         + FilterPool(pool[1..], spellId, classSlug, specSlug)
  }

  function KeyLe(w: World): (Rule, Rule) -> bool {
    (a: Rule, b: Rule) => w.keyCompare(a.canonicalKey, b.canonicalKey) <= 0
  }

  function PoolMatches(w: World, q: Query, pool: seq<Rule>): seq<Rule> {
    var identity := w.canonicalize(q.classSlug, q.specSlug);
    FilterPool(pool, q.spellId, identity.0, identity.1)
  }

  function Classify(w: World, matches: seq<Rule>, spellId: int): Resolution {
    if matches == [] then Unmatched(spellId)
    else if |matches| == 1 then Matched(matches[0], spellId)
    else Ambiguous(Sort(KeyLe(w), matches), spellId)
  }

  function Listed(r: Resolution): seq<Rule> {
    match r
    case Matched(rule, _) => [rule]
    case Ambiguous(rules, _) => rules
    case Unmatched(_) => []
  }

  function PoolRank(rules: Option<seq<Rule>>): nat {
    if rules.Some? then 0 else 2
  }

  function ContextRank(c: Context): nat {
    if c.RulesContext? then 1 else 3
  }

  /** `resolveAbilityRule`. */
  function ResolveAbilityRule(w: World, q: Query, rules: Option<seq<Rule>>): seq<Rule>
    decreases PoolRank(rules), 0
  {
    if Overrides(w) && rules.None? then Listed(ContextResolveBySpellId(w, w.active.value, q))
    else PoolMatches(w, q, rules.GetOr(w.registered))
  }

  /** `resolveAbilityRuleBySpellId`. */
  function ResolveBySpellId(w: World, q: Query, rules: Option<seq<Rule>>): Resolution
    decreases PoolRank(rules), 1
  {
    if Overrides(w) && rules.None? then ContextResolveBySpellId(w, w.active.value, q)
    else Classify(w, ResolveAbilityRule(w, q, rules), q.spellId)
  }

  /** A context's `resolveBySpellId`: the static one asks the registry, the other passes its rules on. */
  function ContextResolveBySpellId(w: World, c: Context, q: Query): Resolution
    decreases ContextRank(c), 0
  {
    match c
    case StaticContext => ResolveBySpellId(w, q, None)
    case RulesContext(_, rules, _) => ResolveBySpellId(w, q, Some(rules))
  }

  /** The rules a call without rules of its own really searches. */
  function EffectivePool(w: World): seq<Rule> {
    if Overrides(w) then w.active.value.rules else w.registered
  }

  /** A call that brings its own rules, and a context made from rules, never delegate. */
  lemma GivenPoolIsSearched(w: World, q: Query, kind: ContextKind, pool: seq<Rule>, topology: Topology)
    ensures ResolveBySpellId(w, q, Some(pool)) == Classify(w, PoolMatches(w, q, pool), q.spellId)
    ensures ContextResolveBySpellId(w, RulesContext(kind, pool, topology), q) ==
      Classify(w, PoolMatches(w, q, pool), q.spellId)
  {
    assert ResolveAbilityRule(w, q, Some(pool)) == PoolMatches(w, q, pool);
    assert ResolveBySpellId(w, q, Some(pool)) == Classify(w, PoolMatches(w, q, pool), q.spellId);
  }

  /** However the calls delegate, the answer is the classification of one pool's matches. */
  lemma DelegationSearchesOnePool(w: World, q: Query)
    ensures ResolveBySpellId(w, q, None) == Classify(w, PoolMatches(w, q, EffectivePool(w)), q.spellId)
    ensures multiset(ResolveAbilityRule(w, q, None)) == multiset(PoolMatches(w, q, EffectivePool(w)))
    ensures ContextResolveBySpellId(w, StaticContext, q) == ResolveBySpellId(w, q, None)
  {
    var matches := PoolMatches(w, q, EffectivePool(w));
    SortPermutes(KeyLe(w), matches);
    assert |matches| == 1 ==> matches == [matches[0]];
    if Overrides(w) {
      var c := w.active.value;
      GivenPoolIsSearched(w, q, c.kind, c.rules, c.topology);
    } else {
      assert ResolveAbilityRule(w, q, None) == matches;
    }
  }

  lemma {:induction false} FilterExactly(pool: seq<Rule>, spellId: int, classSlug: Option<string>,
                                         specSlug: Option<string>)
    ensures forall r :: r in FilterPool(pool, spellId, classSlug, specSlug) <==>
      r in pool && Matches(r, spellId, classSlug, specSlug)
  {
    if pool != [] {
      FilterExactly(pool[1..], spellId, classSlug, specSlug);
      assert pool == [pool[0]] + pool[1..];
      hide Matches;
    }
  }

  /** Nothing is dropped and nothing is picked silently: the answer lists exactly the matching rules of the pool. */
  lemma ResolutionListsAllMatches(w: World, q: Query, pool: seq<Rule>, r: Rule)
    ensures r in Listed(ResolveBySpellId(w, q, Some(pool))) <==>
              var (classSlug, specSlug) := w.canonicalize(q.classSlug, q.specSlug);
              r in pool && Matches(r, q.spellId, classSlug, specSlug)
  {
    var (classSlug, specSlug) := w.canonicalize(q.classSlug, q.specSlug);
    FilterExactly(pool, q.spellId, classSlug, specSlug);
    MemberOfSort(KeyLe(w), PoolMatches(w, q, pool), r);
    var matches := PoolMatches(w, q, pool);
    assert |matches| == 1 ==> matches == [matches[0]];
    hide Matches;
  }

  /** No rule of the pool lists `id` as an activation, buff or triggered effect. */
  ghost predicate OnlyOwnIds(pool: seq<Rule>, id: int) {
    forall i :: 0 <= i < |pool| ==>
      id !in pool[i].activationSpellIds && id !in pool[i].activationBuffIds && id !in pool[i].triggeredEffectIds
  }

  /** The class and the specialization asked for, if any, do not exclude the rule. */
  predicate Admits(r: Rule, classSlug: Option<string>, specSlug: Option<string>) {
    && (Truthy(classSlug).Some? && r.classSlug.Some? ==> r.classSlug == classSlug)
    && (Truthy(specSlug).Some? && r.classSlug.Some? && r.specSlugs != [] ==> specSlug.value in r.specSlugs)
  }

  /** Every two of the rules are of one category and class. */
  ghost predicate AllAgree(rules: seq<Rule>) {
    forall a, b :: a in rules && b in rules ==> Agree(a, b)
  }

  /** The rule lists `id` anywhere and is not excluded. */
  predicate IsLister(r: Rule, id: int, classSlug: Option<string>, specSlug: Option<string>) {
    id in AllIds(r) && Admits(r, classSlug, specSlug)
  }

  /** Every two rules of the pool that list `id` anywhere, and are not excluded, are of one category and class. */
  ghost predicate ListersAgree(pool: seq<Rule>, id: int, classSlug: Option<string>, specSlug: Option<string>) {
    forall a, b ::
      a in pool && b in pool && IsLister(a, id, classSlug, specSlug) && IsLister(b, id, classSlug, specSlug) ==>
        Agree(a, b)
  }

  lemma ListedExactly(w: World, q: Query, pool: seq<Rule>, r: Rule)
    ensures var (classSlug, specSlug) := w.canonicalize(q.classSlug, q.specSlug);
      r in Listed(ResolveBySpellId(w, q, Some(pool))) <==>
        r in pool && q.spellId > 0 && IsLister(r, q.spellId, classSlug, specSlug)
  {
    ResolutionListsAllMatches(w, q, pool, r);
    ResolvableExactly(r, q.spellId);
    hide ResolveBySpellId, ResolvableIds, AllIds;
  }

  function ListerOf(w: World, q: Query): Rule -> bool {
    var (classSlug, specSlug) := w.canonicalize(q.classSlug, q.specSlug);
    r => q.spellId > 0 && IsLister(r, q.spellId, classSlug, specSlug)
  }

  lemma MatchesListers(w: World, q: Query, r: Rule)
    ensures var (classSlug, specSlug) := w.canonicalize(q.classSlug, q.specSlug);
      Matches(r, q.spellId, classSlug, specSlug) <==> ListerOf(w, q)(r)
  {
    ResolvableExactly(r, q.spellId);
    hide ResolvableIds, AllIds;
  }

  lemma {:induction false} FilterPoolChooses(w: World, q: Query, pool: seq<Rule>)
    ensures IsChoice(pool, ListerOf(w, q), PoolMatches(w, q, pool))
  {
    hide Matches, ListerOf, IsChoice;
    if pool == [] {
      ChoiceOfNone(ListerOf(w, q));
    } else {
      FilterPoolChooses(w, q, pool[1..]);
      MatchesListers(w, q, pool[0]);
      ChoiceGrows(pool[0], pool[1..], ListerOf(w, q), PoolMatches(w, q, pool[1..]));
      assert pool == [pool[0]] + pool[1..];
    }
  }

  /** `keyCompare` orders the keys, possibly with ties. */
  ghost predicate OrdersKeys(w: World) {
    && (forall a, b :: w.keyCompare(a, b) <= 0 || w.keyCompare(b, a) <= 0)
    && (forall a, b, c :: w.keyCompare(a, b) <= 0 && w.keyCompare(b, c) <= 0 ==> w.keyCompare(a, c) <= 0)
  }

  /**
    The answer goes by the rules of the pool that list the id and are not excluded, place by place: none is unmatched,
    one place is a match, and more are ambiguous and listed in the order of their keys.
   */
  lemma AnswerExactly(w: World, q: Query, pool: seq<Rule>) returns (found: seq<Rule>)
    ensures IsChoice(pool, ListerOf(w, q), found)
    ensures var answer := ResolveBySpellId(w, q, Some(pool));
      && answer.spellId == q.spellId
      && (answer.Unmatched? <==> found == []) && (answer.Matched? <==> |found| == 1)
      && (answer.Matched? ==> answer.rule == found[0])
      && (answer.Ambiguous? ==> multiset(answer.rules) == multiset(found))
      && (answer.Ambiguous? && OrdersKeys(w) ==>
            forall i, j :: 0 <= i < j < |answer.rules| ==>
              w.keyCompare(answer.rules[i].canonicalKey, answer.rules[j].canonicalKey) <= 0)
  {
    found := PoolMatches(w, q, pool);
    FilterPoolChooses(w, q, pool);
    SortPermutes(KeyLe(w), found);
    if OrdersKeys(w) {
      KeysOrdered(w);
      SortSorts(KeyLe(w), found);
      assert forall a, b :: KeyLe(w)(a, b) ==> w.keyCompare(a.canonicalKey, b.canonicalKey) <= 0;
    }
    hide PoolMatches, IsChoice, ListerOf, Sort, OrdersKeys;
  }

  lemma KeysOrdered(w: World)
    requires OrdersKeys(w)
    ensures TotalPreorder(KeyLe(w))
  {
    var le := KeyLe(w);
    forall x, y
      ensures le(x, y) || le(y, x)
    {
      assert w.keyCompare(x.canonicalKey, y.canonicalKey) <= 0 || w.keyCompare(y.canonicalKey, x.canonicalKey) <= 0;
    }
    forall x, y, z | le(x, y) && le(y, z)
      ensures le(x, z)
    {
      assert w.keyCompare(x.canonicalKey, y.canonicalKey) <= 0 && w.keyCompare(y.canonicalKey, z.canonicalKey) <= 0;
    }
  }

  /**
    The rules of an answer are of one category and class exactly when the rules of the pool that list the id, and are
    not excluded by the class and specialization asked for, are.
   */
  lemma AnswerAgreesExactly(w: World, q: Query, pool: seq<Rule>)
    requires q.spellId > 0
    ensures var (classSlug, specSlug) := w.canonicalize(q.classSlug, q.specSlug);
      AllAgree(Listed(ResolveBySpellId(w, q, Some(pool)))) <==> ListersAgree(pool, q.spellId, classSlug, specSlug)
  {
    var answer := Listed(ResolveBySpellId(w, q, Some(pool)));
    var (classSlug, specSlug) := w.canonicalize(q.classSlug, q.specSlug);
    forall r
      ensures r in answer <==> r in pool && IsLister(r, q.spellId, classSlug, specSlug)
    {
      ListedExactly(w, q, pool, r);
    }
    hide ResolveBySpellId, Listed, IsLister, Agree;
  }

  /** Without a class and a specialization nothing is excluded. */
  lemma UnfilteredAnswerAgreesExactly(w: World, q: Query, pool: seq<Rule>)
    requires q.spellId > 0 && w.canonicalize(q.classSlug, q.specSlug) == (None, None)
    ensures AllAgree(Listed(ResolveBySpellId(w, q, Some(pool)))) <==>
            forall a, b :: a in pool && b in pool && q.spellId in AllIds(a) && q.spellId in AllIds(b) ==> Agree(a, b)
  {
    AnswerAgreesExactly(w, q, pool);
    assert forall r: Rule :: Admits(r, None, None);
    hide ResolveBySpellId, Listed, AllIds, Admits, Agree, AllAgree;
  }

  /**
    Over a valid catalog, an ambiguous answer for an id no rule lists as an effect holds one category and one class.
   */
  lemma AmbiguousRulesAgree(w: World, q: Query, pool: seq<Rule>, hasVersion: bool, a: Rule, b: Rule)
    requires CatalogValid(hasVersion, w.matrix, pool) && OnlyOwnIds(pool, q.spellId)
    requires ResolveBySpellId(w, q, Some(pool)).Ambiguous?
    requires a in ResolveBySpellId(w, q, Some(pool)).rules && b in ResolveBySpellId(w, q, Some(pool)).rules
    ensures a.category == b.category && a.classSlug == b.classSlug
  {
    ListedExactly(w, q, pool, a);
    ListedExactly(w, q, pool, b);
    var i :| 0 <= i < |pool| && pool[i] == a;
    var j :| 0 <= j < |pool| && pool[j] == b;
    assert q.spellId in OwnIds(pool[i]) && q.spellId in OwnIds(pool[j]);
    assert Agree(pool[i], pool[j]);
  }

  const KICK: Rule := Rule("shared.kick", [1], [], [], [3], [], None, [], [], INTERRUPT, PLAYER, BASELINE, [], None,
                           true, false)
  const CLEANSE: Rule :=
      Rule("shared.cleanse", [2], [], [], [3], [], None, [], [], DISPEL, PLAYER, BASELINE, [], None, true, false)

  lemma SharedBuffIsValid(matrix: Matrix)
    requires MatrixOk(matrix)
    ensures CatalogValid(true, matrix, [KICK, CLEANSE])
  {
    assert KICK.canonicalKey[7] != CLEANSE.canonicalKey[7];
  }

  /** Validation does not look at activation ids: a valid catalog can hold two that share one and disagree. */
  lemma SharedBuffDisagrees(w: World, q: Query)
    requires MatrixOk(w.matrix) && q.spellId == 3
    ensures CatalogValid(true, w.matrix, [KICK, CLEANSE])
    ensures var r := ResolveBySpellId(w, q, Some([KICK, CLEANSE]));
      r.Ambiguous? && KICK in r.rules && CLEANSE in r.rules && KICK.category != CLEANSE.category
  {
    var pool := [KICK, CLEANSE];
    SharedBuffIsValid(w.matrix);
    assert pool[0] in pool && pool[1] in pool && KICK != CLEANSE;
    assert 3 in KICK.activationBuffIds && 3 in CLEANSE.activationBuffIds;
    assert 3 in AllIds(KICK) && 3 in AllIds(CLEANSE);
    var (classSlug, specSlug) := w.canonicalize(q.classSlug, q.specSlug);
    MatchesSharedBuff(KICK, classSlug, specSlug);
    MatchesSharedBuff(CLEANSE, classSlug, specSlug);
    ResolutionListsAllMatches(w, q, pool, KICK);
    ResolutionListsAllMatches(w, q, pool, CLEANSE);
    hide ResolveBySpellId, CatalogValid, Matches;
  }

  lemma MatchesSharedBuff(r: Rule, classSlug: Option<string>, specSlug: Option<string>)
    requires r.classSlug.None? && 3 in AllIds(r)
    ensures Matches(r, 3, classSlug, specSlug)
  {
    hide ResolvableIds, AllIds;
    ResolvableExactly(r, 3);
  }

  // ---- the catalog of one class and specialization ----

  datatype Lookup = Lookup(classSlug: Option<string>, specSlug: Option<string>, role: Option<Role>,
                           gameVersion: Option<string>, includeShared: bool, includeRacials: bool)

  datatype Reason = CLASS_SPEC_UNKNOWN | UNSUPPORTED_VERSION | UNKNOWN_CLASS | UNKNOWN_SPEC | UNSUPPORTED_SPEC

  datatype Slice = Slice(version: Version, catalogVersion: string, classSlug: string, specSlug: string,
                         supportState: Option<SupportState>, rules: seq<Rule>)

  datatype CatalogResult =
    | Supported(slice: Slice)
    | Refused(reason: Reason, classSlug: string, specSlug: string, role: Option<Role>, gameVersion: Option<string>)

  const RACIAL_PREFIX: string := "shared.racial."

  // ---- the registry's filter and the contexts' filter ----

  predicate RuleAppliesToSpec(r: Rule, classSlug: string, specSlug: string) {
    if r.classSlug.None? then true
    else if r.classSlug != Some(classSlug) then false
    else if |r.specSlugs| == 0 then true
    else specSlug in r.specSlugs
  }

  predicate RuleAppliesToRole(r: Rule, role: Option<Role>) {
    if role.None? then true else role.value in r.roles
  }

  /** `filterRulesForLookup` of the registry. */
  function FilterRulesForLookup(rules: seq<Rule>, classSlug: string, specSlug: string, role: Option<Role>,
                                includeShared: bool, includeRacials: bool): seq<Rule> {
    if rules == [] then []
    else
      var r, rest := rules[0],
        FilterRulesForLookup(rules[1..], classSlug, specSlug, role, includeShared, includeRacials);
      var keep :=
        if r.classSlug.None? then
          if r.availability.SHARED? && r.category.CONSUMABLE? then includeShared
          else if RACIAL_PREFIX <= r.canonicalKey then includeRacials
          else includeShared
        else RuleAppliesToSpec(r, classSlug, specSlug) && RuleAppliesToRole(r, role);
      if keep then [r] + rest else rest
  }

  /** What `filterRulesForCatalogContext` keeps. */
  predicate ContextKeeps(r: Rule, classSlug: string, specSlug: string, role: Option<Role>, includeShared: bool,
                         includeRacials: bool) {
    match r.classSlug
    case None =>
      (if r.availability == SHARED && r.category == CONSUMABLE then includeShared
       else if RACIAL_PREFIX <= r.canonicalKey then includeRacials
       else includeShared)
    case Some(own) =>
      own == classSlug && (r.specSlugs == [] || specSlug in r.specSlugs) &&
      (role.Some? ==> role.value in r.roles)
  }

  /** `filterRulesForCatalogContext`. */
  function FilterRulesForContext(rules: seq<Rule>, classSlug: string, specSlug: string, role: Option<Role>,
                                 includeShared: bool, includeRacials: bool): seq<Rule> {
    if rules == [] then []
    else (if ContextKeeps(rules[0], classSlug, specSlug, role, includeShared, includeRacials) then [rules[0]] else [])
         + FilterRulesForContext(rules[1..], classSlug, specSlug, role, includeShared, includeRacials)
  }

  /** The two filters, written separately, keep the same rules. */
  lemma {:induction false} FiltersAgree(rules: seq<Rule>, classSlug: string, specSlug: string, role: Option<Role>,
                                        includeShared: bool, includeRacials: bool)
    ensures FilterRulesForLookup(rules, classSlug, specSlug, role, includeShared, includeRacials)
         == FilterRulesForContext(rules, classSlug, specSlug, role, includeShared, includeRacials)
  {
    if rules != [] {
      FiltersAgree(rules[1..], classSlug, specSlug, role, includeShared, includeRacials);
    }
  }

  // ---- what a served catalog holds ----

  /** A racial of no class, unless it is a shared consumable. */
  predicate IsRacial(r: Rule) {
    RACIAL_PREFIX <= r.canonicalKey && !(r.availability.SHARED? && r.category.CONSUMABLE?)
  }

  /**
    A rule of a class is for its class, for the specialization unless it names none, and for the role if one is asked;
    of the others, racials are served if asked for, and the rest if shared rules are.
   */
  predicate IsServed(r: Rule, classSlug: string, specSlug: string, l: Lookup) {
    if r.classSlug.Some? then
      r.classSlug.value == classSlug && (specSlug in r.specSlugs || r.specSlugs == [])
      && (l.role.Some? ==> l.role.value in r.roles)
    else (IsRacial(r) && l.includeRacials) || (!IsRacial(r) && l.includeShared)
  }

  function ServedBy(classSlug: string, specSlug: string, l: Lookup): Rule -> bool {
    r => IsServed(r, classSlug, specSlug, l)
  }

  lemma KeepsServed(r: Rule, classSlug: string, specSlug: string, l: Lookup)
    ensures ContextKeeps(r, classSlug, specSlug, l.role, l.includeShared, l.includeRacials)
            <==> ServedBy(classSlug, specSlug, l)(r)
  {
  }

  lemma {:induction false} ContextFilterServes(rules: seq<Rule>, classSlug: string, specSlug: string, l: Lookup)
    ensures IsChoice(rules, ServedBy(classSlug, specSlug, l),
                     FilterRulesForContext(rules, classSlug, specSlug, l.role, l.includeShared, l.includeRacials))
  {
    var p := ServedBy(classSlug, specSlug, l);
    hide ContextKeeps, ServedBy, IsChoice;
    if rules == [] {
      ChoiceOfNone(p);
    } else {
      var rest := FilterRulesForContext(rules[1..], classSlug, specSlug, l.role, l.includeShared, l.includeRacials);
      ContextFilterServes(rules[1..], classSlug, specSlug, l);
      KeepsServed(rules[0], classSlug, specSlug, l);
      ChoiceGrows(rules[0], rules[1..], p, rest);
      assert rules == [rules[0]] + rules[1..];
    }
  }

  lemma FilterServes(rules: seq<Rule>, classSlug: string, specSlug: string, l: Lookup)
    ensures IsChoice(rules, ServedBy(classSlug, specSlug, l),
                     FilterRulesForLookup(rules, classSlug, specSlug, l.role, l.includeShared, l.includeRacials))
  {
    ContextFilterServes(rules, classSlug, specSlug, l);
    FiltersAgree(rules, classSlug, specSlug, l.role, l.includeShared, l.includeRacials);
    hide FilterRulesForLookup, FilterRulesForContext, IsChoice, ServedBy;
  }

  // ---- class lookups in a topology ----

  function FindTopologyClass(classes: seq<TopologyClass>, slug: string): Option<TopologyClass> {
    if classes == [] then None
    else if classes[0].slug == slug then Some(classes[0])
    else FindTopologyClass(classes[1..], slug)
  }

  function FindTopologySpecIn(specs: seq<TopologySpec>, slug: string): Option<TopologySpec> {
    if specs == [] then None
    else if specs[0].slug == slug then Some(specs[0])
    else FindTopologySpecIn(specs[1..], slug)
  }

  function FindTopologySpec(topology: Topology, classSlug: string, specSlug: string): Option<TopologySpec> {
    var c := FindTopologyClass(topology.classes, classSlug);
    if c.None? then None else FindTopologySpecIn(c.value.specs, specSlug)
  }

  function MirrorSpecs(specs: seq<SpecDefinition>): seq<TopologySpec> {
    if specs == [] then []
    else [TopologySpec(specs[0].slug, specs[0].role, specs[0].supportState)] + MirrorSpecs(specs[1..])
  }

  function MirrorClasses(matrix: Matrix): seq<TopologyClass> {
    if matrix == [] then []
    else [TopologyClass(matrix[0].slug, matrix[0].supportState,
                        MirrorSpecs(matrix[0].specs))] + MirrorClasses(matrix[1..])
  }

  /** `staticTopologyView`: the class matrix, and the races given. */
  function StaticTopology(matrix: Matrix, races: seq<string>): Topology {
    Topology(MirrorClasses(matrix), races)
  }

  lemma {:induction false} MirrorFindsSpec(specs: seq<SpecDefinition>, slug: string)
    ensures var found, mirrored := FindSpecIn(specs, slug), FindTopologySpecIn(MirrorSpecs(specs), slug);
      found.Some? == mirrored.Some? && (found.Some? ==> mirrored.value.supportState == found.value.supportState)
  {
    if specs != [] {
      MirrorFindsSpec(specs[1..], slug);
      assert MirrorSpecs(specs)[1..] == MirrorSpecs(specs[1..]);
    }
  }

  lemma {:induction false} MirrorFindsClass(matrix: Matrix, slug: string)
    ensures var found, mirrored := FindClass(matrix, slug), FindTopologyClass(MirrorClasses(matrix), slug);
      found.Some? == mirrored.Some?
      && (found.Some? ==> mirrored.value.supportState == found.value.supportState
                          && mirrored.value.specs == MirrorSpecs(found.value.specs))
  {
    if matrix != [] {
      MirrorFindsClass(matrix[1..], slug);
      assert MirrorClasses(matrix)[1..] == MirrorClasses(matrix[1..]);
    }
  }

  /** Looking up in the mirrored topology finds what looking up in the matrix finds. */
  lemma MirrorFinds(matrix: Matrix, races: seq<string>, classSlug: string, specSlug: string)
    ensures var topology := StaticTopology(matrix, races);
      var c, d := FindClass(matrix, classSlug), FindTopologyClass(topology.classes, classSlug);
      var s, t := FindSpec(matrix, classSlug, specSlug), FindTopologySpec(topology, classSlug, specSlug);
      && c.Some? == d.Some? && (c.Some? ==> d.value.supportState == c.value.supportState)
      && s.Some? == t.Some? && (s.Some? ==> t.value.supportState == s.value.supportState)
  {
    MirrorFindsClass(matrix, classSlug);
    var c := FindClass(matrix, classSlug);
    if c.Some? {
      MirrorFindsSpec(c.value.specs, specSlug);
    }
  }

  // ---- versions ----

  function FindVersion(versions: seq<Version>, gameVersion: string): Option<Version> {
    if versions == [] then None
    else if versions[0].gameVersion == gameVersion then Some(versions[0])
    else FindVersion(versions[1..], gameVersion)
  }

  function CurrentVersionId(w: World): string {
    w.current.gameVersion + "/" + w.season
  }

  /** `getCatalogByVersion`: the version record, its id and its rules. */
  function CatalogByVersion(w: World, gameVersion: string): Option<(Version, string, seq<Rule>)> {
    var pin := FindVersion(w.historical, gameVersion);
    if pin.None? then None
    else if pin.value.gameVersion == w.current.gameVersion then Some((w.current, CurrentVersionId(w), w.registered))
    else Some((pin.value, pin.value.gameVersion + "/" + pin.value.seasonSlug.GetOr("unknown"),
               w.consumables + w.warlock))
  }

  /** `resolveAbilityCatalogStatic`. */
  function StaticCatalog(w: World, l: Lookup): CatalogResult {
    var identity := w.canonicalize(l.classSlug, l.specSlug);
    var classSlug, specSlug := identity.0.GetOr(""), identity.1.GetOr("");
    if classSlug == "" || specSlug == "" then
      Refused(CLASS_SPEC_UNKNOWN, if classSlug == "" then "unknown" else classSlug,
              if specSlug == "" then "unknown" else specSlug, l.role, l.gameVersion)
    else if Truthy(l.gameVersion).Some? && FindVersion(w.historical, l.gameVersion.value).None? then
      Refused(UNSUPPORTED_VERSION, classSlug, specSlug, l.role, l.gameVersion)
    else
      var classDef := FindClass(w.matrix, classSlug);
      if classDef.None? then Refused(UNKNOWN_CLASS, classSlug, specSlug, l.role, l.gameVersion)
      else
        var specDef := FindSpec(w.matrix, classSlug, specSlug);
        if specDef.None? then Refused(UNKNOWN_SPEC, classSlug, specSlug, l.role, l.gameVersion)
        else if specDef.value.supportState == Some(UNSUPPORTED) || classDef.value.supportState == Some(UNSUPPORTED) then
          Refused(UNSUPPORTED_SPEC, classSlug, specSlug, l.role, l.gameVersion)
        else
          var versioned := if Truthy(l.gameVersion).Some? then CatalogByVersion(w, l.gameVersion.value)
                           else Some((w.current, CurrentVersionId(w), w.registered));
          if versioned.None? then Refused(UNSUPPORTED_VERSION, classSlug, specSlug, l.role, l.gameVersion)
          else
            Supported(Slice(versioned.value.0, versioned.value.1, classSlug, specSlug, specDef.value.supportState,
                            FilterRulesForLookup(versioned.value.2, classSlug, specSlug, l.role, l.includeShared,
                                                 l.includeRacials)))
  }

  /** `resolveCatalog` of a context made from rules, with its own ladder of refusals. */
  function RulesCatalog(w: World, rules: seq<Rule>, topology: Topology, l: Lookup): CatalogResult {
    var identity := w.canonicalize(l.classSlug, l.specSlug);
    var classSlug, specSlug := identity.0.GetOr(""), identity.1.GetOr("");
    var named := classSlug != "" && specSlug != "";
    var versionKnown := Truthy(l.gameVersion).None? || FindVersion(w.historical, l.gameVersion.value).Some?;
    var classDef, specDef := FindTopologyClass(topology.classes, classSlug),
      FindTopologySpec(topology, classSlug, specSlug);
    if !named then
      Refused(CLASS_SPEC_UNKNOWN, if classSlug == "" then "unknown" else classSlug,
              if specSlug == "" then "unknown" else specSlug, l.role, l.gameVersion)
    else if !versionKnown then Refused(UNSUPPORTED_VERSION, classSlug, specSlug, l.role, l.gameVersion)
    else if classDef.None? then Refused(UNKNOWN_CLASS, classSlug, specSlug, l.role, l.gameVersion)
    else if specDef.None? then Refused(UNKNOWN_SPEC, classSlug, specSlug, l.role, l.gameVersion)
    else if specDef.value.supportState == Some(UNSUPPORTED) || classDef.value.supportState == Some(UNSUPPORTED) then
      Refused(UNSUPPORTED_SPEC, classSlug, specSlug, l.role, l.gameVersion)
    else
      var gameVersion := Truthy(l.gameVersion);
      var catalogVersion := if gameVersion.Some? && gameVersion.value != w.current.gameVersion
                            then gameVersion.value + "/" + w.season else CurrentVersionId(w);
      Supported(Slice(w.current, catalogVersion, classSlug, specSlug, specDef.value.supportState,
                      FilterRulesForContext(rules, classSlug, specSlug, l.role, l.includeShared, l.includeRacials)))
  }

  /** `resolveAbilityCatalog`. */
  function ResolveCatalog(w: World, l: Lookup): CatalogResult
    decreases 2
  {
    if Overrides(w) then ContextResolveCatalog(w, w.active.value, l) else StaticCatalog(w, l)
  }

  /** A context's `resolveCatalog`. */
  function ContextResolveCatalog(w: World, c: Context, l: Lookup): CatalogResult
    decreases if c.RulesContext? then 1 else 3
  {
    match c
    case StaticContext => ResolveCatalog(w, l)
    case RulesContext(_, rules, topology) => RulesCatalog(w, rules, topology, l)
  }

  // ---- when a lookup is served, and with what ----

  /** The class and the specialization after normalization, empty where there is none. */
  function Identity(w: World, l: Lookup): (string, string) {
    var identity := w.canonicalize(l.classSlug, l.specSlug);
    (identity.0.GetOr(""), identity.1.GetOr(""))
  }

  /** A version is named, and it is not the current one. */
  predicate NamesOther(w: World, l: Lookup) {
    l.gameVersion.Some? && l.gameVersion.value != "" && l.gameVersion.value != w.current.gameVersion
  }

  /** The version named, if one is, is a known one. */
  ghost predicate VersionKnown(w: World, l: Lookup) {
    l.gameVersion.Some? && l.gameVersion.value != "" ==>
      exists v :: v in w.historical && v.gameVersion == l.gameVersion.value
  }

  lemma {:induction false} FindVersionExactly(versions: seq<Version>, gameVersion: string)
    ensures FindVersion(versions, gameVersion).Some? <==> exists v :: v in versions && v.gameVersion == gameVersion
    ensures FindVersion(versions, gameVersion).Some? ==>
      && FindVersion(versions, gameVersion).value in versions
      && FindVersion(versions, gameVersion).value.gameVersion == gameVersion
  {
    if versions != [] {
      FindVersionExactly(versions[1..], gameVersion);
      assert versions == [versions[0]] + versions[1..];
    }
  }

  /**
    A refusal gives the first reason that holds, in this order, and repeats the question; without any the lookup is
    served. `classState` and `specState` are what the class and its specialization are found to be, if they are.
   */
  ghost predicate IsAnswered(w: World, l: Lookup, classState: Option<Option<SupportState>>,
                             specState: Option<Option<SupportState>>, result: CatalogResult)
  {
    var (classSlug, specSlug) := Identity(w, l);
    var named, known := classSlug != "" && specSlug != "", VersionKnown(w, l);
    var supported := classState != Some(Some(UNSUPPORTED)) && specState != Some(Some(UNSUPPORTED));
    && (result.Supported? <==> named && known && classState.Some? && specState.Some? && supported)
    && (result.Refused? ==>
          && (result.reason == CLASS_SPEC_UNKNOWN <==> !named)
          && (result.reason == UNSUPPORTED_VERSION <==> named && !known)
          && (result.reason == UNKNOWN_CLASS <==> named && known && classState.None?)
          && (result.reason == UNKNOWN_SPEC <==> named && known && classState.Some? && specState.None?)
          && (result.reason == UNSUPPORTED_SPEC <==>
                named && known && classState.Some? && specState.Some? && !supported)
          && result.classSlug == (if classSlug == "" then "unknown" else classSlug)
          && result.specSlug == (if specSlug == "" then "unknown" else specSlug)
          && result.role == l.role && result.gameVersion == l.gameVersion)
  }

  /**
    The catalog is for the class and specialization asked for, with the state found, and holds the rules to be served.
   */
  ghost predicate IsSliceOf(w: World, l: Lookup, pool: seq<Rule>, specState: Option<Option<SupportState>>,
                            slice: Slice) {
    var (classSlug, specSlug) := Identity(w, l);
    && slice.classSlug == classSlug && slice.specSlug == specSlug && specState == Some(slice.supportState)
    && IsChoice(pool, ServedBy(classSlug, specSlug, l), slice.rules)
  }

  function ClassState(matrix: Matrix, classSlug: string): Option<Option<SupportState>> {
    var c := FindClass(matrix, classSlug);
    if c.None? then None else Some(c.value.supportState)
  }

  function SpecState(matrix: Matrix, classSlug: string, specSlug: string): Option<Option<SupportState>> {
    var d := FindSpec(matrix, classSlug, specSlug);
    if d.None? then None else Some(d.value.supportState)
  }

  lemma StaticAnswers(w: World, l: Lookup)
    ensures var (classSlug, specSlug) := Identity(w, l);
      IsAnswered(w, l, ClassState(w.matrix, classSlug), SpecState(w.matrix, classSlug, specSlug), StaticCatalog(w, l))
  {
    if l.gameVersion.Some? {
      FindVersionExactly(w.historical, l.gameVersion.value);
    }
    hide FilterRulesForLookup, FindSpec, FindClass, FindVersion, CurrentVersionId;
  }

  lemma StaticSlice(w: World, l: Lookup)
    requires StaticCatalog(w, l).Supported?
    ensures var slice, (classSlug, specSlug) := StaticCatalog(w, l).slice, Identity(w, l);
      var pool := if NamesOther(w, l) then w.consumables + w.warlock else w.registered;
      && slice.classSlug == classSlug && slice.specSlug == specSlug
      && SpecState(w.matrix, classSlug, specSlug) == Some(slice.supportState)
      && slice.rules == FilterRulesForLookup(pool, classSlug, specSlug, l.role, l.includeShared, l.includeRacials)
      && (!NamesOther(w, l) ==>
            slice.version == w.current && slice.catalogVersion == w.current.gameVersion + "/" + w.season)
      && (NamesOther(w, l) ==>
            && slice.version in w.historical && slice.version.gameVersion == l.gameVersion.value
            && slice.catalogVersion == slice.version.gameVersion + "/" + slice.version.seasonSlug.GetOr("unknown"))
  {
    if l.gameVersion.Some? {
      FindVersionExactly(w.historical, l.gameVersion.value);
    }
    hide FilterRulesForLookup, FindSpec, FindClass, FindVersion;
  }

  /**
    The registry serves the registered rules under the current version, or, for another known version, the consumables
    and the warlock rules under that version's own record.
   */
  lemma StaticServesExactly(w: World, l: Lookup)
    ensures var result := StaticCatalog(w, l);
      var (classSlug, specSlug) := Identity(w, l);
      var specState := SpecState(w.matrix, classSlug, specSlug);
      && IsAnswered(w, l, ClassState(w.matrix, classSlug), specState, result)
      && (result.Supported? && !NamesOther(w, l) ==>
            && IsSliceOf(w, l, w.registered, specState, result.slice)
            && result.slice.version == w.current
            && result.slice.catalogVersion == w.current.gameVersion + "/" + w.season)
      && (result.Supported? && NamesOther(w, l) ==>
            var version := result.slice.version;
            && IsSliceOf(w, l, w.consumables + w.warlock, specState, result.slice)
            && version in w.historical && version.gameVersion == l.gameVersion.value
            && result.slice.catalogVersion == version.gameVersion + "/" + version.seasonSlug.GetOr("unknown"))
  {
    var (classSlug, specSlug) := Identity(w, l);
    StaticAnswers(w, l);
    hide *;
    FilterServes(w.registered, classSlug, specSlug, l);
    FilterServes(w.consumables + w.warlock, classSlug, specSlug, l);
    if StaticCatalog(w, l).Supported? {
      StaticSlice(w, l);
      SliceServes(w, l, if NamesOther(w, l) then w.consumables + w.warlock
                  else w.registered, StaticCatalog(w, l).slice);
    }
  }

  lemma SliceServes(w: World, l: Lookup, pool: seq<Rule>, slice: Slice)
    requires var (classSlug, specSlug) := Identity(w, l);
      && slice.classSlug == classSlug && slice.specSlug == specSlug
      && IsChoice(pool, ServedBy(classSlug, specSlug, l), slice.rules)
    ensures IsSliceOf(w, l, pool, Some(slice.supportState), slice)
  {
    hide IsChoice, ServedBy;
  }

  function TopologyClassState(topology: Topology, classSlug: string): Option<Option<SupportState>> {
    var c := FindTopologyClass(topology.classes, classSlug);
    if c.None? then None else Some(c.value.supportState)
  }

  function TopologySpecState(topology: Topology, classSlug: string, specSlug: string): Option<Option<SupportState>> {
    var d := FindTopologySpec(topology, classSlug, specSlug);
    if d.None? then None else Some(d.value.supportState)
  }

  /** A context made from rules serves those, always under the current version record. */
  lemma RulesServeExactly(w: World, rules: seq<Rule>, topology: Topology, l: Lookup)
    ensures var result := RulesCatalog(w, rules, topology, l);
      var (classSlug, specSlug) := Identity(w, l);
      var specState := TopologySpecState(topology, classSlug, specSlug);
      && IsAnswered(w, l, TopologyClassState(topology, classSlug), specState, result)
      && (result.Supported? ==>
            && IsSliceOf(w, l, rules, specState, result.slice) && result.slice.version == w.current
            && result.slice.catalogVersion
               == (if NamesOther(w, l) then l.gameVersion.value else w.current.gameVersion) + "/" + w.season)
  {
    var (classSlug, specSlug) := Identity(w, l);
    if l.gameVersion.Some? {
      FindVersionExactly(w.historical, l.gameVersion.value);
    }
    ContextFilterServes(rules, classSlug, specSlug, l);
    hide FilterRulesForContext, FindTopologySpec, FindTopologyClass, FindVersion, IsChoice, ServedBy;
  }

  /**
    Whoever is asked, the catalog served holds exactly the rules to be served of one pool: those of the release context
    in charge or of the context made from rules, or else the registry's.
   */
  lemma CatalogServesExactly(w: World, c: Option<Context>, l: Lookup)
    ensures var result := if c.Some? then ContextResolveCatalog(w, c.value, l) else ResolveCatalog(w, l);
      var (classSlug, specSlug) := Identity(w, l);
      result.Supported? ==>
        && result.slice.classSlug == classSlug && result.slice.specSlug == specSlug
        && IsChoice(SearchedPool(w, c, l), ServedBy(classSlug, specSlug, l), result.slice.rules)
  {
    StaticServesExactly(w, l);
    if Overrides(w) {
      RulesServeExactly(w, w.active.value.rules, w.active.value.topology, l);
    }
    if c.Some? && c.value.RulesContext? {
      RulesServeExactly(w, c.value.rules, c.value.topology, l);
    }
    hide StaticCatalog, RulesCatalog, IsChoice, ServedBy, IsAnswered;
  }

  function SearchedPool(w: World, c: Option<Context>, l: Lookup): seq<Rule> {
    if c.Some? && c.value.RulesContext? then c.value.rules
    else if Overrides(w) then w.active.value.rules
    else if NamesOther(w, l) then w.consumables + w.warlock
    else w.registered
  }

  lemma {:induction false} FoundVersionMatches(versions: seq<Version>, gameVersion: string)
    ensures FindVersion(versions, gameVersion).Some? ==>
      FindVersion(versions, gameVersion).value.gameVersion == gameVersion
  {
    if versions != [] {
      FoundVersionMatches(versions[1..], gameVersion);
    }
  }

  /** The two ladders and filters, over a mirrored topology, differ at most in the versions they name. */
  lemma LaddersAgree(w: World, l: Lookup, races: seq<string>)
    ensures var mirrored, plain := RulesCatalog(w, w.registered, StaticTopology(w.matrix, races), l),
      StaticCatalog(w, l);
      && (plain.Refused? <==> mirrored.Refused?) && (plain.Refused? ==> mirrored == plain)
      && (plain.Supported? ==>
            && mirrored.slice.classSlug == plain.slice.classSlug && mirrored.slice.specSlug == plain.slice.specSlug
            && mirrored.slice.supportState == plain.slice.supportState)
      && (plain.Supported? && Truthy(l.gameVersion).None? ==> mirrored == plain)
  {
    var identity := w.canonicalize(l.classSlug, l.specSlug);
    var classSlug, specSlug := identity.0.GetOr(""), identity.1.GetOr("");
    MirrorFinds(w.matrix, races, classSlug, specSlug);
    FiltersAgree(w.registered, classSlug, specSlug, l.role, l.includeShared, l.includeRacials);
    if l.gameVersion.Some? {
      FoundVersionMatches(w.historical, l.gameVersion.value);
    }
    hide FilterRulesForLookup, FilterRulesForContext, FindSpec, FindClass, FindTopologyClass, FindTopologySpec,
      FindVersion;
  }

  /**
    A release context built from the registered rules and the mirrored class matrix gives the static registry's result
    exactly for lookups that are refused or that name no game version or the current one.
   */
  lemma ReleaseMirrorsStaticExactly(w: World, l: Lookup, kind: ContextKind, races: seq<string>)
    ensures ContextResolveCatalog(w, RulesContext(kind, w.registered, StaticTopology(w.matrix, races)), l)
            == StaticCatalog(w, l) <==>
              || StaticCatalog(w, l).Refused?
              || Truthy(l.gameVersion).None?
              || l.gameVersion.value == w.current.gameVersion
  {
    LaddersAgree(w, l, races);
    if l.gameVersion.Some? {
      FoundVersionMatches(w.historical, l.gameVersion.value);
    }
    var identity := w.canonicalize(l.classSlug, l.specSlug);
    FiltersAgree(w.registered, identity.0.GetOr(""), identity.1.GetOr(""), l.role, l.includeShared, l.includeRacials);
    hide FilterRulesForLookup, FilterRulesForContext, FindSpec, FindClass, FindTopologyClass, FindTopologySpec,
      FindVersion;
  }

  /**
    Activating such a release context changes no spell resolution, and changes a catalog resolution exactly when it is
    served for a game version other than the current one.
   */
  lemma ActivatingMirrorExactly(w: World, l: Lookup, q: Query, races: seq<string>)
    requires w.active.None?
    ensures var activated :=
      w.(active := Some(RulesContext(ReleaseKind, w.registered, StaticTopology(w.matrix, races))));
      && ResolveBySpellId(activated, q, None) == ResolveBySpellId(w, q, None)
      && (ResolveCatalog(activated, l) == ResolveCatalog(w, l) <==>
            ResolveCatalog(w, l).Refused? || Truthy(l.gameVersion).None? ||
                l.gameVersion.value == w.current.gameVersion)
  {
    var activated := w.(active := Some(RulesContext(ReleaseKind, w.registered, StaticTopology(w.matrix, races))));
    DelegationSearchesOnePool(activated, q);
    DelegationSearchesOnePool(w, q);
    ReleaseMirrorsStaticExactly(w, l, ReleaseKind, races);
    SameWorldCatalog(w, activated, l, w.registered, StaticTopology(w.matrix, races));
    hide ResolveBySpellId, StaticCatalog, RulesCatalog, StaticTopology;
    assert PoolMatches(activated, q, w.registered) == PoolMatches(w, q, w.registered);
  }

  /** A context made from rules does not look at the active context. */
  lemma SameWorldCatalog(w: World, v: World, l: Lookup, rules: seq<Rule>, topology: Topology)
    requires v == w.(active := v.active)
    ensures RulesCatalog(v, rules, topology, l) == RulesCatalog(w, rules, topology, l)
  {
    hide FilterRulesForContext, FindTopologyClass, FindTopologySpec, FindVersion;
  }
}
