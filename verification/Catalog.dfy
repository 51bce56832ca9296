/** The ability catalog's data (packages/abilities/src/types.ts) and lookups in the class matrix. */
module Catalog {
  import opened Wrappers

  datatype Category =
    | INTERRUPT | HARD_CC | SOFT_CC | DISPEL | PURGE | DEFENSIVE_MAJOR | DEFENSIVE_MINOR | IMMUNITY | SELF_HEAL
    | EXTERNAL_DEFENSIVE | GROUP_UTILITY | MOVEMENT_UTILITY | BATTLE_REZ | BLOODLUST | CONSUMABLE
    | OFFENSIVE_MAJOR | OFFENSIVE_MINOR

  datatype Availability = BASELINE | TALENT | PET_DEPENDENT | FORM_DEPENDENT | CHOICE_NODE | SHARED

  datatype Role = DPS | TANK | HEALER

  datatype Ownership = PLAYER | PET | GUARDIAN | ANY_OWNED | UnsupportedOwnership(text: string)

  datatype SupportState = SUPPORTED | PARTIAL | UNSUPPORTED | UNCERTAIN

  /** One ability rule; an absent list reads as the empty one. */
  datatype Rule = Rule(
    canonicalKey: string,
    spellIds: seq<int>,
    aliases: seq<int>,
    activationSpellIds: seq<int>,
    activationBuffIds: seq<int>,
    triggeredEffectIds: seq<int>,
    classSlug: Option<string>,
    specSlugs: seq<string>,
    roles: seq<Role>,
    category: Category,
    ownership: Ownership,
    availability: Availability,
    raceSlugs: seq<string>,
    replacementFor: Option<string>,
    hasProvenance: bool,
    uncertain: bool)

  datatype SpecDefinition = SpecDefinition(slug: string, role: Role, supportState: Option<SupportState>)
  datatype ClassDefinition = ClassDefinition(slug: string, supportState: Option<SupportState>,
                                             specs: seq<SpecDefinition>)

  type Matrix = seq<ClassDefinition>

  /** `find` by slug: the first entry. */
  function FindClass(matrix: Matrix, slug: string): Option<ClassDefinition> {
    if matrix == [] then None
    else if matrix[0].slug == slug then Some(matrix[0])
    else FindClass(matrix[1..], slug)
  }

  function FindSpecIn(specs: seq<SpecDefinition>, slug: string): Option<SpecDefinition> {
    if specs == [] then None
    else if specs[0].slug == slug then Some(specs[0])
    else FindSpecIn(specs[1..], slug)
  }

  function FindSpec(matrix: Matrix, classSlug: string, specSlug: string): Option<SpecDefinition> {
    var c := FindClass(matrix, classSlug);
    if c.None? then None else FindSpecIn(c.value.specs, specSlug)
  }

  /** What is found is the first class with the slug, and nothing only if there is none. */
  lemma {:induction false} FindClassFirst(matrix: Matrix, slug: string)
    ensures match FindClass(matrix, slug)
            case Some(c) =>
              exists i :: 0 <= i < |matrix| && matrix[i] == c && c.slug == slug
                          && forall j :: 0 <= j < i ==> matrix[j].slug != slug
            case None => forall i :: 0 <= i < |matrix| ==> matrix[i].slug != slug
  {
    if matrix != [] && matrix[0].slug != slug {
      FindClassFirst(matrix[1..], slug);
      if FindClass(matrix, slug).Some? {
        var i :| 0 <= i < |matrix[1..]| && matrix[1..][i] == FindClass(matrix, slug).value
                 && matrix[1..][i].slug == slug && forall j :: 0 <= j < i ==> matrix[1..][j].slug != slug;
        assert matrix[i + 1] == matrix[1..][i];
        assert forall j :: 0 < j < i + 1 ==> matrix[j] == matrix[1..][j - 1];
      } else {
        assert forall i :: 0 < i < |matrix| ==> matrix[i] == matrix[1..][i - 1];
      }
    }
  }

  lemma {:induction false} FindSpecFirst(specs: seq<SpecDefinition>, slug: string)
    ensures match FindSpecIn(specs, slug)
            case Some(d) =>
              exists i :: 0 <= i < |specs| && specs[i] == d && d.slug == slug
                          && forall j :: 0 <= j < i ==> specs[j].slug != slug
            case None => forall i :: 0 <= i < |specs| ==> specs[i].slug != slug
  {
    if specs != [] && specs[0].slug != slug {
      FindSpecFirst(specs[1..], slug);
      if FindSpecIn(specs, slug).Some? {
        var i :| 0 <= i < |specs[1..]| && specs[1..][i] == FindSpecIn(specs, slug).value
                 && specs[1..][i].slug == slug && forall j :: 0 <= j < i ==> specs[1..][j].slug != slug;
        assert specs[i + 1] == specs[1..][i];
        assert forall j :: 0 < j < i + 1 ==> specs[j] == specs[1..][j - 1];
      } else {
        assert forall i :: 0 < i < |specs| ==> specs[i] == specs[1..][i - 1];
      }
    }
  }

  /** The ids under which a rule is checked for sharing. */
  function OwnIds(r: Rule): seq<int> {
    r.spellIds + r.aliases
  }

  /** Same category and class: rules that may share a spell id. */
  predicate Agree(a: Rule, b: Rule) {
    a.category == b.category && a.classSlug == b.classSlug
  }
}
