/** `validateAbilityCatalog` and `walkReplacement` of packages/abilities/src/validation.ts. */
module CatalogValidation {
  import opened Wrappers
  import opened Catalog

  datatype Issue =
    | MissingVersion
    | EmptyCanonicalKey
    | DuplicateCanonicalKey(key: string)
    | EmptySpellIds(key: string)
    | MissingProvenance(key: string)
    | BadOwnership(key: string)
    | UnknownClass(key: string)
    | UnknownSpec(key: string, spec: string)
    | DuplicateSpellConflict(key: string, spellId: int)
    | DuplicateSpellSameSemantics(key: string, spellId: int)
    | UncertainAbility(key: string)
    | ReplacementTargetMissing(key: string, target: string)
    | ReplacementCycle(key: string, path: seq<string>)
    | MissingClassSupport(slug: string)
    | MissingSpecSupport(slug: string, spec: string)

  // ---- replacement chains ----

  /** The key that `key`'s rule replaces; an empty or absent target ends the chain. */
  function NextKey(rules: map<string, Rule>, key: string): Option<string> {
    if key in rules && rules[key].replacementFor.Some? && rules[key].replacementFor.value != ""
    then rules[key].replacementFor else None
  }

  /** A linked path in the replacement relation. */
  ghost predicate IsChain(rules: map<string, Rule>, path: seq<string>) {
    forall i :: 0 <= i < |path| - 1 ==> NextKey(rules, path[i]) == Some(path[i + 1])
  }

  /** The chain from `start` comes to a key without a successor. */
  ghost predicate ChainEnds(rules: map<string, Rule>, start: string) {
    exists path: seq<string> ::
      path != [] && path[0] == start && IsChain(rules, path) && NextKey(rules, path[|path| - 1]) == None
  }

  /** The chain from `start` runs into a key it has been at. */
  ghost predicate IsLoop(rules: map<string, Rule>, start: string, path: seq<string>) {
    && |path| >= 2 && path[0] == start && IsChain(rules, path)
    && path[|path| - 1] in path[..|path| - 1]
    && (forall i, j :: 0 <= i < j < |path| - 1 ==> path[i] != path[j])
  }

  ghost predicate Distinct(s: seq<string>) {
    forall i, j :: 0 <= i < j < |s| ==> s[i] != s[j]
  }

  lemma {:induction false} DistinctSize(s: seq<string>, bound: set<string>)
    requires Distinct(s) && forall i :: 0 <= i < |s| ==> s[i] in bound
    ensures |s| <= |bound|
  {
    if s != [] {
      var n := |s| - 1;
      DistinctSize(s[..n], bound - {s[n]});
    }
  }

  /** Chains are deterministic: two from the same key agree as far as both go. */
  lemma {:induction false} ChainsAgree(rules: map<string, Rule>, p: seq<string>, q: seq<string>, n: nat)
    requires p != [] && q != [] && p[0] == q[0] && IsChain(rules, p) && IsChain(rules, q)
    requires n < |p| && n < |q|
    ensures p[n] == q[n]
  {
    if n > 0 {
      ChainsAgree(rules, p, q, n - 1);
      assert NextKey(rules, p[n - 1]) == Some(p[n]) && NextKey(rules, q[n - 1]) == Some(q[n]);
    }
  }

  lemma LoopMember(rules: map<string, Rule>, start: string, loop: seq<string>, i: nat)
    requires IsLoop(rules, start, loop) && i < |loop|
    ensures loop[i] in loop[..|loop| - 1] && NextKey(rules, loop[i]).Some?
  {
    var front := loop[..|loop| - 1];
    var k :| 0 <= k < |front| && front[k] == loop[|loop| - 1];
    var j := if i < |loop| - 1 then i else k;
    assert front[j] == loop[i];
    assert NextKey(rules, loop[j]) == Some(loop[j + 1]);
  }

  /** From a key on a loop there is a chain of every length. */
  lemma {:induction false} LoopGoesOn(rules: map<string, Rule>, start: string, loop: seq<string>, n: nat)
      returns (path: seq<string>)
    requires IsLoop(rules, start, loop)
    ensures |path| == n + 1 && path[0] == start && IsChain(rules, path)
    ensures path[n] in loop[..|loop| - 1] && NextKey(rules, path[n]).Some?
  {
    if n == 0 {
      path := [start];
      assert loop[..|loop| - 1][0] == start;
      assert NextKey(rules, loop[0]) == Some(loop[1]);
    } else {
      path := LoopGoesOn(rules, start, loop, n - 1);
      var i :| 0 <= i < |loop| - 1 && loop[..|loop| - 1][i] == path[n - 1];
      assert NextKey(rules, loop[i]) == Some(loop[i + 1]);
      path := path + [loop[i + 1]];
      LoopMember(rules, start, loop, i + 1);
    }
  }

  /** A chain that loops does not end. */
  lemma LoopNeverEnds(rules: map<string, Rule>, start: string, loop: seq<string>)
    requires IsLoop(rules, start, loop)
    ensures !ChainEnds(rules, start)
  {
    if ChainEnds(rules, start) {
      var path :| path != [] && path[0] == start && IsChain(rules, path) && NextKey(rules, path[|path| - 1]) == None;
      var n := |path| - 1;
      var longer := LoopGoesOn(rules, start, loop, n);
      ChainsAgree(rules, path, longer, n);
    }
  }

  /** How far the walk from `start` has come: the keys seen, in order, and the key to look at next. */
  ghost predicate Walked(rules: map<string, Rule>, start: string, seen: seq<string>, current: Option<string>) {
    && Distinct(seen) && IsChain(rules, seen)
    && (if seen == [] then current == Some(start)
        else seen[0] == start && current == NextKey(rules, seen[|seen| - 1]))
  }

  lemma WalkOn(rules: map<string, Rule>, start: string, seen: seq<string>, key: string)
    requires Walked(rules, start, seen, Some(key)) && key !in seen
    ensures Walked(rules, start, seen + [key], NextKey(rules, key))
    ensures |seen| <= |rules.Keys|
  {
    forall i | 0 <= i < |seen|
      ensures seen[i] in rules.Keys
    {
      assert i < |seen| - 1 ==> NextKey(rules, seen[i]) == Some(seen[i + 1]);
    }
    DistinctSize(seen, rules.Keys);
    hide NextKey;
  }

  lemma WalkLoops(rules: map<string, Rule>, start: string, seen: seq<string>, key: string)
    requires Walked(rules, start, seen, Some(key)) && key in seen
    ensures IsLoop(rules, start, seen + [key]) && !ChainEnds(rules, start)
  {
    var loop := seen + [key];
    assert loop[..|loop| - 1] == seen;
    assert IsLoop(rules, start, loop) by {
      hide NextKey;
    }
    hide IsLoop, ChainEnds, IsChain;
    LoopNeverEnds(rules, start, loop);
  }

  lemma WalkEnds(rules: map<string, Rule>, start: string, seen: seq<string>)
    requires Walked(rules, start, seen, None)
    ensures ChainEnds(rules, start)
  {
    hide NextKey, IsChain, Distinct;
  }

  /**
    `walkReplacement`: always terminates; null exactly when the chain from `start` ends (an empty start is no
    chain at all), and otherwise the linked path up to the first repeated key.
   */
  method WalkReplacement(rules: map<string, Rule>, start: string) returns (cycle: Option<seq<string>>)
    ensures cycle.None? <==> start == "" || ChainEnds(rules, start)
    ensures cycle.Some? ==> IsLoop(rules, start, cycle.value)
  {
    if start == "" {
      return None;
    }
    var seen: seq<string> := [];
    var current := Some(start);
    assert Walked(rules, start, seen, current);
    hide *;
    while current.Some?
      invariant Walked(rules, start, seen, current)
      decreases |rules.Keys| + 1 - |seen|
    {
      if current.value in seen {
        WalkLoops(rules, start, seen, current.value);
        return Some(seen + [current.value]);
      }
      WalkOn(rules, start, seen, current.value);
      seen := seen + [current.value];
      current := NextKey(rules, current.value);
    }
    WalkEnds(rules, start, seen);
    cycle := None;
  }

  // ---- what a valid catalog is ----

  /** What the first pass asks of one rule by itself. */
  predicate RuleOk(matrix: Matrix, r: Rule) {
    && r.canonicalKey != "" && r.spellIds != [] && r.hasProvenance && !r.ownership.UnsupportedOwnership?
    && (r.classSlug.Some? ==> FindClass(matrix, r.classSlug.value).Some?)
    && (r.classSlug.Some? && r.classSlug.value != "" ==>
          forall i :: 0 <= i < |r.specSlugs| ==> FindSpec(matrix, r.classSlug.value, r.specSlugs[i]).Some?)
  }

  ghost predicate KeysDistinct(rules: seq<Rule>) {
    forall i, j :: 0 <= i < j < |rules| ==> rules[i].canonicalKey != rules[j].canonicalKey
  }

  /** Any two rules that list a common id agree. */
  ghost predicate SharedIdsAgree(rules: seq<Rule>) {
    forall i, j, id :: 0 <= i < |rules| && 0 <= j < |rules| && id in OwnIds(rules[i]) && id in OwnIds(rules[j])
      ==> Agree(rules[i], rules[j])
  }

  function Target(r: Rule): Option<string> {
    if r.replacementFor.Some? && r.replacementFor.value != "" then r.replacementFor else None
  }

  /** Every replacement target is a rule, and every chain of replacements ends. */
  ghost predicate ReplacementsWellFounded(index: map<string, Rule>, rules: seq<Rule>) {
    forall i :: 0 <= i < |rules| && Target(rules[i]).Some? ==>
      Target(rules[i]).value in index && (rules[i].canonicalKey == "" || ChainEnds(index, rules[i].canonicalKey))
  }

  predicate MatrixOk(matrix: Matrix) {
    forall i :: 0 <= i < |matrix| ==>
      matrix[i].supportState.Some? && forall j :: 0 <= j < |matrix[i].specs| ==> matrix[i].specs[j].supportState.Some?
  }

  ghost predicate CatalogValid(hasVersion: bool, matrix: Matrix, rules: seq<Rule>) {
    && hasVersion && MatrixOk(matrix)
    && (forall i :: 0 <= i < |rules| ==> RuleOk(matrix, rules[i]))
    && KeysDistinct(rules) && SharedIdsAgree(rules)
    && ReplacementsWellFounded(Index(rules), rules)
  }

  /** The `keys` map: the first rule of every non-empty key. */
  function Index(rules: seq<Rule>): map<string, Rule> {
    if rules == [] then map[]
    else
      var n := |rules| - 1;
      var before, r := Index(rules[..n]), rules[n];
      if r.canonicalKey == "" || r.canonicalKey in before then before else before[r.canonicalKey := r]
  }

  /** `r` claims the ids: it becomes the owner where there is none, or where the owner has its key. */
  function Claim(owners: map<int, Rule>, r: Rule, ids: seq<int>): map<int, Rule> {
    if ids == [] then owners
    else
      var n := |ids| - 1;
      var before := Claim(owners, r, ids[..n]);
      if ids[n] in before && before[ids[n]].canonicalKey != r.canonicalKey then before else before[ids[n] := r]
  }

  /** The `spellOwners` map after the rules of a prefix. */
  function Owners(rules: seq<Rule>): map<int, Rule> {
    if rules == [] then map[]
    else
      var n := |rules| - 1;
      if rules[n].canonicalKey == "" then Owners(rules[..n])
      else Claim(Owners(rules[..n]), rules[n], OwnIds(rules[n]))
  }

  lemma {:induction false} ClaimFacts(owners: map<int, Rule>, r: Rule, ids: seq<int>, id: int)
    ensures id in Claim(owners, r, ids) <==> id in owners || id in ids
    ensures id in owners && owners[id].canonicalKey != r.canonicalKey ==> Claim(owners, r, ids)[id] == owners[id]
    ensures id in ids && !(id in owners && owners[id].canonicalKey != r.canonicalKey) ==> Claim(owners, r, ids)[id] == r
    ensures id !in ids && id in owners ==> Claim(owners, r, ids)[id] == owners[id]
  {
    if ids != [] {
      var n := |ids| - 1;
      assert ids == ids[..n] + [ids[n]];
      ClaimFacts(owners, r, ids[..n], id);
      ClaimFacts(owners, r, ids[..n], ids[n]);
    }
  }

  /** Every claimed id has an owner, and the owner is a rule that lists it. */
  lemma {:induction false} OwnersFacts(rules: seq<Rule>, id: int)
    ensures id in Owners(rules) ==> Owners(rules)[id] in rules && id in OwnIds(Owners(rules)[id])
    ensures forall r :: r in rules && r.canonicalKey != "" && id in OwnIds(r) ==> id in Owners(rules)
  {
    if rules != [] {
      var n := |rules| - 1;
      assert rules == rules[..n] + [rules[n]];
      OwnersFacts(rules[..n], id);
      ClaimFacts(Owners(rules[..n]), rules[n], OwnIds(rules[n]), id);
      hide Claim, OwnIds;
    }
  }

  lemma {:induction false} IndexFacts(rules: seq<Rule>, key: string)
    ensures key in Index(rules) ==> key != "" && Index(rules)[key] in rules && Index(rules)[key].canonicalKey == key
    ensures forall r :: r in rules && r.canonicalKey == key && key != "" ==> key in Index(rules)
  {
    if rules != [] {
      var n := |rules| - 1;
      assert rules == rules[..n] + [rules[n]];
      IndexFacts(rules[..n], key);
    }
  }

  // ---- validateAbilityCatalog ----

  /** The checks of one rule that look at no other rule. */
  method CheckRule(matrix: Matrix, r: Rule) returns (errors: seq<Issue>)
    requires r.canonicalKey != ""
    ensures errors == [] <==> RuleOk(matrix, r)
    ensures forall e :: e in errors ==>
      e.EmptySpellIds? || e.MissingProvenance? || e.BadOwnership? ||
      e.UnknownClass? || e.UnknownSpec?
  {
    errors := [];
    if r.spellIds == [] {
      errors := errors + [EmptySpellIds(r.canonicalKey)];
    }
    if !r.hasProvenance {
      errors := errors + [MissingProvenance(r.canonicalKey)];
    }
    if r.ownership.UnsupportedOwnership? {
      errors := errors + [BadOwnership(r.canonicalKey)];
    }
    if r.classSlug.Some? && FindClass(matrix, r.classSlug.value).None? {
      errors := errors + [UnknownClass(r.canonicalKey)];
    }
    ghost var before := errors;
    for i := 0 to |r.specSlugs|
      invariant forall e :: e in errors ==>
        e.EmptySpellIds? || e.MissingProvenance? || e.BadOwnership? ||
        e.UnknownClass? || e.UnknownSpec?
      invariant errors == [] <==> before == [] && (r.classSlug.Some? && r.classSlug.value != "" ==>
                  forall k :: 0 <= k < i ==> FindSpec(matrix, r.classSlug.value, r.specSlugs[k]).Some?)
    {
      if r.classSlug.Some? && r.classSlug.value != "" && FindSpec(matrix, r.classSlug.value, r.specSlugs[i]).None? {
        errors := errors + [UnknownSpec(r.canonicalKey, r.specSlugs[i])];
      }
    }
  }

  /** `id` belongs to another rule that does not agree with `r`. */
  predicate Clashes(owners: map<int, Rule>, r: Rule, id: int) {
    id in owners && owners[id].canonicalKey != r.canonicalKey && !Agree(owners[id], r)
  }

  /** `id` belongs to another rule that agrees with `r`. */
  predicate Shares(owners: map<int, Rule>, r: Rule, id: int) {
    id in owners && owners[id].canonicalKey != r.canonicalKey && Agree(owners[id], r)
  }

  ghost predicate ReportsClashes(errors: seq<Issue>, owners: map<int, Rule>, r: Rule, ids: seq<int>) {
    && (forall e :: e in errors ==>
          e.DuplicateSpellConflict? && e.key == r.canonicalKey && e.spellId in ids && Clashes(owners, r, e.spellId))
    && (forall id :: id in ids && Clashes(owners, r, id) ==> DuplicateSpellConflict(r.canonicalKey, id) in errors)
  }

  ghost predicate ReportsSharing(warnings: seq<Issue>, owners: map<int, Rule>, r: Rule, ids: seq<int>) {
    && (forall w :: w in warnings ==>
          w.DuplicateSpellSameSemantics? && w.key == r.canonicalKey && w.spellId in ids && Shares(owners, r, w.spellId))
    && (forall id :: id in ids && Shares(owners, r, id) ==> DuplicateSpellSameSemantics(r.canonicalKey, id) in warnings)
  }

  lemma ReportMore(errors: seq<Issue>, warnings: seq<Issue>, owners: map<int, Rule>, r: Rule, ids: seq<int>, id: int)
    requires ReportsClashes(errors, owners, r, ids) && ReportsSharing(warnings, owners, r, ids)
    ensures ReportsClashes(if Clashes(owners, r, id) then errors + [DuplicateSpellConflict(r.canonicalKey, id)]
                           else errors,
                           owners, r, ids + [id])
    ensures ReportsSharing(if Shares(owners, r, id) then warnings + [DuplicateSpellSameSemantics(r.canonicalKey, id)]
                           else warnings,
                           owners, r, ids + [id])
  {
    hide Clashes, Shares;
  }

  /** One id: only an owner with another key is in the way, and that owner is one from before the rule. */
  lemma ClaimStep(owners: map<int, Rule>, r: Rule, ids: seq<int>, i: nat)
    requires i < |ids|
    ensures var before, id := Claim(owners, r, ids[..i]), ids[i];
      var taken := id in before && before[id].canonicalKey != r.canonicalKey;
      && Claim(owners, r, ids[..i + 1]) == (if taken then before else before[id := r])
      && (taken ==> id in owners && owners[id] == before[id])
      && (Clashes(owners, r, id) <==> taken && !Agree(before[id], r))
      && (Shares(owners, r, id) <==> taken && Agree(before[id], r))
  {
    ClaimFacts(owners, r, ids[..i], ids[i]);
    assert ids[..i + 1] == ids[..i] + [ids[i]] && ids[..i + 1][..i] == ids[..i];
    hide Agree;
  }

  /** The ids of one rule against the owners so far. */
  method ClaimIds(owners: map<int, Rule>, r: Rule)
      returns (owners': map<int, Rule>, errors: seq<Issue>, warnings: seq<Issue>)
    ensures owners' == Claim(owners, r, OwnIds(r))
    ensures ReportsClashes(errors, owners, r, OwnIds(r))
    ensures ReportsSharing(warnings, owners, r, OwnIds(r))
  {
    owners', errors, warnings := owners, [], [];
    var ids := OwnIds(r);
    assert Claim(owners, r, ids[..0]) == owners;
    assert ReportsClashes([], owners, r, ids[..0]) && ReportsSharing([], owners, r, ids[..0]);
    assert ids[..|ids|] == ids;
    hide Claim, ReportsClashes, ReportsSharing, OwnIds, Clashes, Shares;
    for i := 0 to |ids|
      invariant owners' == Claim(owners, r, ids[..i])
      invariant ReportsClashes(errors, owners, r, ids[..i])
      invariant ReportsSharing(warnings, owners, r, ids[..i])
    {
      var id := ids[i];
      ClaimStep(owners, r, ids, i);
      ReportMore(errors, warnings, owners, r, ids[..i], id);
      assert ids[..i + 1] == ids[..i] + [id];
      if id in owners' && owners'[id].canonicalKey != r.canonicalKey {
        if owners'[id].category != r.category || owners'[id].classSlug != r.classSlug {
          errors := errors + [DuplicateSpellConflict(r.canonicalKey, id)];
        } else {
          warnings := warnings + [DuplicateSpellSameSemantics(r.canonicalKey, id)];
        }
      } else {
        owners' := owners'[id := r];
      }
    }
  }

  lemma WellFoundedStep(index: map<string, Rule>, rules: seq<Rule>, i: nat)
    requires i < |rules|
    ensures var r := rules[i];
      ReplacementsWellFounded(index, rules[..i + 1]) <==>
        && ReplacementsWellFounded(index, rules[..i])
        && (Target(r).Some? ==> Target(r).value in index && (r.canonicalKey == "" || ChainEnds(index, r.canonicalKey)))
  {
    hide ChainEnds, Target;
    assert rules[..i + 1] == rules[..i] + [rules[i]];
  }

  /** The second pass: replacement targets and cycles. */
  method CheckReplacements(index: map<string, Rule>, rules: seq<Rule>) returns (errors: seq<Issue>)
    ensures errors == [] <==> ReplacementsWellFounded(index, rules)
    ensures forall e :: e in errors ==>
      e.ReplacementTargetMissing? ||
      (e.ReplacementCycle? && IsLoop(index, e.key, e.path))
    ensures forall key, target :: ReplacementTargetMissing(key, target) in errors <==>
              exists i :: 0 <= i < |rules| && rules[i].canonicalKey == key && Target(rules[i]) == Some(target) &&
                  target !in index
  {
    errors := [];
    assert rules[..|rules|] == rules;
    assert ReplacementsWellFounded(index, rules[..0]);
    hide ReplacementsWellFounded, ChainEnds, IsLoop, Target;
    for i := 0 to |rules|
      invariant errors == [] <==> ReplacementsWellFounded(index, rules[..i])
      invariant forall e :: e in errors ==>
        e.ReplacementTargetMissing? ||
        (e.ReplacementCycle? && IsLoop(index, e.key, e.path))
      invariant forall key, target :: ReplacementTargetMissing(key, target) in errors <==>
                  exists k :: 0 <= k < i && rules[k].canonicalKey == key && Target(rules[k]) == Some(target) &&
                      target !in index
    {
      var r := rules[i];
      WellFoundedStep(index, rules, i);
      if Target(r).Some? {
        if Target(r).value !in index {
          errors := errors + [ReplacementTargetMissing(r.canonicalKey, Target(r).value)];
        } else {
          var cycle := WalkReplacement(index, r.canonicalKey);
          if cycle.Some? {
            errors := errors + [ReplacementCycle(r.canonicalKey, cycle.value)];
          }
        }
      }
    }
  }

  method CheckMatrix(matrix: Matrix) returns (errors: seq<Issue>)
    ensures errors == [] <==> MatrixOk(matrix)
    ensures forall e :: e in errors ==> e.MissingClassSupport? || e.MissingSpecSupport?
  {
    errors := [];
    for i := 0 to |matrix|
      invariant errors == [] <==> MatrixOk(matrix[..i])
      invariant forall e :: e in errors ==> e.MissingClassSupport? || e.MissingSpecSupport?
    {
      assert matrix[..i + 1] == matrix[..i] + [matrix[i]];
      if matrix[i].supportState.None? {
        errors := errors + [MissingClassSupport(matrix[i].slug)];
      }
      ghost var before := errors;
      for j := 0 to |matrix[i].specs|
        invariant errors == [] <==> before == [] && forall k :: 0 <= k < j ==> matrix[i].specs[k].supportState.Some?
        invariant forall e :: e in errors ==> e.MissingClassSupport? || e.MissingSpecSupport?
      {
        if matrix[i].specs[j].supportState.None? {
          errors := errors + [MissingSpecSupport(matrix[i].slug, matrix[i].specs[j].slug)];
        }
      }
    }
    assert matrix[..|matrix|] == matrix;
  }

  /** The part of validity that the first pass decides for a prefix of the rules. */
  ghost predicate PrefixValid(matrix: Matrix, rules: seq<Rule>) {
    && (forall i :: 0 <= i < |rules| ==> RuleOk(matrix, rules[i]))
    && KeysDistinct(rules) && SharedIdsAgree(rules)
  }

  /**
    One more rule keeps the prefix valid exactly when it is fine by itself, has a new key and clashes with no owner.
   */
  lemma PrefixStep(matrix: Matrix, rules: seq<Rule>, r: Rule)
    requires PrefixValid(matrix, rules)
    ensures PrefixValid(matrix, rules + [r]) <==>
              RuleOk(matrix, r) && r.canonicalKey !in Index(rules) && forall id :: id in OwnIds(r) ==>
                  !Clashes(Owners(rules), r, id)
  {
    var more := rules + [r];
    var fine := RuleOk(matrix, r) && r.canonicalKey !in Index(rules) && forall id :: id in OwnIds(r) ==>
      !Clashes(Owners(rules), r, id);
    IndexFacts(rules, r.canonicalKey);
    assert more[|rules|] == r;
    assert forall i :: 0 <= i < |rules| ==> more[i] == rules[i];
    hide OwnIds, RuleOk, Index, Owners;
    if fine {
      forall i, id | 0 <= i < |rules| && id in OwnIds(rules[i]) && id in OwnIds(r)
        ensures Agree(rules[i], r)
      {
        OwnersFacts(rules, id);
        KeyOfValid(matrix, rules, i);
      }
    }
    if PrefixValid(matrix, more) {
      forall id | id in OwnIds(r)
        ensures !Clashes(Owners(rules), r, id)
      {
        OwnersFacts(rules, id);
        if id in Owners(rules) {
          var i :| 0 <= i < |rules| && rules[i] == Owners(rules)[id];
          assert Agree(more[i], more[|rules|]);
        }
      }
    }
  }

  lemma KeyOfValid(matrix: Matrix, rules: seq<Rule>, i: nat)
    requires PrefixValid(matrix, rules) && i < |rules|
    ensures rules[i].canonicalKey != ""
  {
  }

  /** A reported conflict is between two rules that list the id and disagree. */
  ghost predicate ConflictBetween(rules: seq<Rule>, e: Issue)
    requires e.DuplicateSpellConflict?
  {
    exists i, j :: 0 <= i < |rules| && 0 <= j < |rules| && rules[j].canonicalKey == e.key
      && e.spellId in OwnIds(rules[i]) && e.spellId in OwnIds(rules[j]) && !Agree(rules[i], rules[j])
  }

  /** Errors of the first pass only, and every conflict among them is real. */
  ghost predicate FirstPass(rules: seq<Rule>, errors: seq<Issue>) {
    forall e :: e in errors ==>
      && !e.ReplacementTargetMissing? && !e.ReplacementCycle? && !e.MissingVersion?
      && (e.DuplicateSpellConflict? ==> ConflictBetween(rules, e))
  }

  lemma FirstPassJoined(rules: seq<Rule>, a: seq<Issue>, b: seq<Issue>)
    requires FirstPass(rules, a) && FirstPass(rules, b)
    ensures FirstPass(rules, a + b)
  {
    hide ConflictBetween;
  }

  /** The first pass: fields, keys and owners. */
  method CheckRules(matrix: Matrix, rules: seq<Rule>)
      returns (keys: map<string, Rule>, errors: seq<Issue>, warnings: seq<Issue>)
    ensures keys == Index(rules)
    ensures errors == [] <==> PrefixValid(matrix, rules)
    ensures FirstPass(rules, errors)
  {
    keys, errors, warnings := map[], [], [];
    var spellOwners: map<int, Rule> := map[];
    assert Index(rules[..0]) == map[] && Owners(rules[..0]) == map[] && PrefixValid(matrix, rules[..0]);
    assert FirstPass(rules, []) && rules[..|rules|] == rules;
    hide *;
    for i := 0 to |rules|
      invariant keys == Index(rules[..i]) && spellOwners == Owners(rules[..i])
      invariant errors == [] <==> PrefixValid(matrix, rules[..i])
      invariant FirstPass(rules, errors)
    {
      var ruleErrors, ruleWarnings;
      keys, spellOwners, ruleErrors, ruleWarnings := CheckOne(matrix, rules, i, keys, spellOwners);
      FirstPassJoined(rules, errors, ruleErrors);
      errors := errors + ruleErrors;
      warnings := warnings + ruleWarnings;
    }
  }

  /** One iteration of the first pass: what it adds. */
  method CheckOne(matrix: Matrix, rules: seq<Rule>, i: nat, keys: map<string, Rule>, owners: map<int, Rule>)
    returns (keys': map<string, Rule>, owners': map<int, Rule>, errors: seq<Issue>, warnings: seq<Issue>)
    requires i < |rules| && keys == Index(rules[..i]) && owners == Owners(rules[..i])
    ensures keys' == Index(rules[..i + 1]) && owners' == Owners(rules[..i + 1])
    ensures PrefixValid(matrix, rules[..i + 1]) <==> PrefixValid(matrix, rules[..i]) && errors == []
    ensures FirstPass(rules, errors)
  {
    var r := rules[i];
    ghost var before := rules[..i];
    assert rules[..i + 1] == before + [r];
    PrefixShrinks(matrix, before, r);
    if r.canonicalKey == "" {
      EmptyKeyInvalid(matrix, before, r);
      hide PrefixValid, Index, Owners;
      return keys, owners, [EmptyCanonicalKey], [];
    }
    assert FirstPass(rules, []) && FirstPass(rules, [DuplicateCanonicalKey(r.canonicalKey)]);
    hide *;
    KeyedStep(before, r);
    keys', errors := keys, [];
    if r.canonicalKey in keys {
      errors := [DuplicateCanonicalKey(r.canonicalKey)];
    } else {
      keys' := keys[r.canonicalKey := r];
    }
    var fieldErrors := CheckRule(matrix, r);
    var clashes;
    owners', clashes, warnings := ClaimIds(owners, r);
    FieldErrorsFirst(rules, fieldErrors);
    ClashesAreConflicts(rules, i, clashes);
    FirstPassJoined(rules, errors, fieldErrors);
    FirstPassJoined(rules, errors + fieldErrors, clashes);
    errors := errors + fieldErrors + clashes;
    if r.uncertain {
      warnings := warnings + [UncertainAbility(r.canonicalKey)];
    }
    NoClashesReported(clashes, owners, r);
    if PrefixValid(matrix, before) {
      PrefixStep(matrix, before, r);
    }
  }

  lemma FieldErrorsFirst(rules: seq<Rule>, errors: seq<Issue>)
    requires forall e :: e in errors ==>
      e.EmptySpellIds? || e.MissingProvenance? || e.BadOwnership? ||
      e.UnknownClass? || e.UnknownSpec?
    ensures FirstPass(rules, errors)
  {
    hide ConflictBetween;
  }

  lemma KeyedStep(rules: seq<Rule>, r: Rule)
    requires r.canonicalKey != ""
    ensures Index(rules + [r]) == if r.canonicalKey in Index(rules) then Index(rules)
      else Index(rules)[r.canonicalKey := r]
    ensures Owners(rules + [r]) == Claim(Owners(rules), r, OwnIds(r))
  {
    var more := rules + [r];
    assert more[|rules|] == r && more[..|rules|] == rules;
    hide Claim, OwnIds;
  }

  lemma EmptyKeyInvalid(matrix: Matrix, rules: seq<Rule>, r: Rule)
    requires r.canonicalKey == ""
    ensures !PrefixValid(matrix, rules + [r])
    ensures Index(rules + [r]) == Index(rules) && Owners(rules + [r]) == Owners(rules)
  {
    var more := rules + [r];
    assert more[|rules|] == r && more[..|rules|] == rules;
  }

  lemma PrefixShrinks(matrix: Matrix, rules: seq<Rule>, r: Rule)
    ensures PrefixValid(matrix, rules + [r]) ==> PrefixValid(matrix, rules)
  {
    var more := rules + [r];
    assert forall i :: 0 <= i < |rules| ==> more[i] == rules[i];
    hide RuleOk, OwnIds;
  }

  lemma NoClashesReported(errors: seq<Issue>, owners: map<int, Rule>, r: Rule)
    requires ReportsClashes(errors, owners, r, OwnIds(r))
    ensures errors == [] <==> forall id :: id in OwnIds(r) ==> !Clashes(owners, r, id)
  {
    if errors != [] {
      assert errors[0] in errors;
    }
    hide Clashes, OwnIds;
  }

  lemma ClashesAreConflicts(rules: seq<Rule>, i: nat, errors: seq<Issue>)
    requires i < |rules| && ReportsClashes(errors, Owners(rules[..i]), rules[i], OwnIds(rules[i]))
    ensures FirstPass(rules, errors)
  {
    forall e | e in errors
      ensures e.DuplicateSpellConflict? && ConflictBetween(rules, e)
    {
      OwnersFacts(rules[..i], e.spellId);
      var owner := Owners(rules[..i])[e.spellId];
      var k :| 0 <= k < i && rules[..i][k] == owner;
      assert rules[k] == owner;
    }
  }

  /** `validateAbilityCatalog`: no errors exactly for valid catalogs, and each error names a real defect. */
  method ValidateAbilityCatalog(hasVersion: bool, matrix: Matrix, rules: seq<Rule>)
    returns (valid: bool, errors: seq<Issue>, warnings: seq<Issue>)
    ensures valid <==> errors == []
    ensures valid <==> CatalogValid(hasVersion, matrix, rules)
    ensures forall key, path :: ReplacementCycle(key, path) in errors ==> IsLoop(Index(rules), key, path)
    ensures forall key, target :: ReplacementTargetMissing(key, target) in errors <==>
              exists i :: 0 <= i < |rules| && rules[i].canonicalKey == key && Target(rules[i]) == Some(target) &&
                  target !in Index(rules)
    ensures forall e :: e in errors && e.DuplicateSpellConflict? ==> ConflictBetween(rules, e)
    ensures MissingVersion in errors <==> !hasVersion
  {
    errors := if hasVersion then [] else [MissingVersion];
    var keys, ruleErrors;
    keys, ruleErrors, warnings := CheckRules(matrix, rules);
    var replacementErrors := CheckReplacements(keys, rules);
    var matrixErrors := CheckMatrix(matrix);
    errors := errors + ruleErrors + replacementErrors + matrixErrors;
    valid := errors == [];
    hide RuleOk, Index, MatrixOk, KeysDistinct, SharedIdsAgree, ReplacementsWellFounded, ConflictBetween, IsLoop,
      Target;
  }

  // ---- what a valid report gives the readers of the catalog ----

  /** In a valid catalog the index holds every rule under its key. */
  lemma ValidIndexComplete(hasVersion: bool, matrix: Matrix, rules: seq<Rule>, r: Rule)
    requires CatalogValid(hasVersion, matrix, rules) && r in rules
    ensures r.canonicalKey in Index(rules) && Index(rules)[r.canonicalKey] == r
  {
    var i :| 0 <= i < |rules| && rules[i] == r;
    IndexFacts(rules, r.canonicalKey);
    var j :| 0 <= j < |rules| && rules[j] == Index(rules)[r.canonicalKey];
    assert RuleOk(matrix, rules[i]);
    hide Index, SharedIdsAgree, ReplacementsWellFounded, RuleOk;
  }

  /** The replacement relation of a valid catalog is closed and well-founded: every chain from a rule ends. */
  lemma ValidReplacementsWellFounded(hasVersion: bool, matrix: Matrix, rules: seq<Rule>, key: string)
    requires CatalogValid(hasVersion, matrix, rules) && key in Index(rules)
    ensures ChainEnds(Index(rules), key)
    ensures NextKey(Index(rules), key).Some? ==> NextKey(Index(rules), key).value in Index(rules)
  {
    var index := Index(rules);
    IndexFacts(rules, key);
    var r := index[key];
    var i :| 0 <= i < |rules| && rules[i] == r;
    if Target(r).None? {
      var path := [key];
      assert IsChain(index, path) && NextKey(index, path[|path| - 1]) == None;
    }
  }

  /** So no rule replaces itself, at any distance. */
  lemma ValidHasNoCycle(hasVersion: bool, matrix: Matrix, rules: seq<Rule>, path: seq<string>)
    requires CatalogValid(hasVersion, matrix, rules)
    requires |path| >= 2 && path[0] in Index(rules) && IsChain(Index(rules), path)
    ensures path[0] != path[|path| - 1]
  {
    if path[0] == path[|path| - 1] {
      var loop := ShortestLoop(Index(rules), path);
      LoopNeverEnds(Index(rules), path[0], loop);
      ValidReplacementsWellFounded(hasVersion, matrix, rules, path[0]);
    }
  }

  lemma {:induction false} ShortestLoop(rules: map<string, Rule>, path: seq<string>) returns (loop: seq<string>)
    requires |path| >= 2 && IsChain(rules, path) && path[|path| - 1] in path[..|path| - 1]
    ensures IsLoop(rules, path[0], loop)
    decreases |path|
  {
    var front := path[..|path| - 1];
    if i, j :| 0 <= i < j < |front| && front[i] == front[j] {
      var shorter := path[..j + 1];
      assert shorter[..|shorter| - 1] == path[..j];
      assert path[..j][i] == path[j];
      assert forall k :: 0 <= k < |shorter| ==> shorter[k] == path[k];
      loop := ShortestLoop(rules, shorter);
    } else {
      loop := path;
      assert forall i, j :: 0 <= i < j < |path| - 1 ==> front[i] != front[j];
    }
  }
}
