/**
  When an explanation may be shown, and in what order it lists contributors
  (packages/contracts/src/explainability-v2.ts).
 */
module PublicExplanation {
  import opened Wrappers
  import opened Sorting
  import opened JsHost

  datatype PublicationState = UNAVAILABLE | SHADOW | PROVISIONAL | PUBLISHED | STALE

  const UNPUBLISHED: set<string> := {"DRAFT", "CANDIDATE", "SUPERSEDED", "REJECTED_INCOMPLETE", "REJECTED_INCOHERENT"}

  /** `derivePublicationState`. */
  function DerivePublicationState(coverageState: string, lifecycleStates: seq<string>): PublicationState {
    if lifecycleStates == [] then UNAVAILABLE
    else if "SHADOW" in lifecycleStates then SHADOW
    else if exists i :: 0 <= i < |lifecycleStates| && lifecycleStates[i] in UNPUBLISHED then UNAVAILABLE
    else if !(forall i :: 0 <= i < |lifecycleStates| ==> lifecycleStates[i] == "PUBLISHED") then UNAVAILABLE
    else if coverageState == "INSUFFICIENT" then UNAVAILABLE
    else if coverageState == "PARTIAL" then PROVISIONAL
    else if coverageState == "FULL" || coverageState == "STRONG" then PUBLISHED
    else UNAVAILABLE
  }

  predicate IsEmittable(s: PublicationState) {
    s.PUBLISHED? || s.PROVISIONAL?
  }

  /**
    Nothing is shown unless every dimension's lifecycle is published, there is one, and the coverage is one of the three
    known good grades; partial coverage is shown as provisional. No one lifecycle outside that can be outvoted.
   */
  lemma EmittableExactly(coverageState: string, lifecycleStates: seq<string>)
    ensures var s := DerivePublicationState(coverageState, lifecycleStates);
      var live := lifecycleStates != [] && forall l :: l in lifecycleStates ==> l == "PUBLISHED";
      (IsEmittable(s) <==> live && coverageState in {"FULL", "STRONG", "PARTIAL"})
      && (s == PUBLISHED <==> live && coverageState in {"FULL", "STRONG"})
      && (s == PROVISIONAL <==> live && coverageState == "PARTIAL")
      && (s == SHADOW <==> "SHADOW" in lifecycleStates)
      && (s == UNAVAILABLE <==>
            "SHADOW" !in lifecycleStates && !(live && coverageState in {"FULL", "STRONG", "PARTIAL"}))
      && s != STALE
  {
    assert "SHADOW" != "PUBLISHED";
    if forall l :: l in lifecycleStates ==> l == "PUBLISHED" {
      assert "PUBLISHED"[0] == 'P' && "DRAFT"[0] == 'D' && "CANDIDATE"[0] == 'C' && "SUPERSEDED"[0] == 'S'
          && "REJECTED_INCOMPLETE"[0] == 'R' && "REJECTED_INCOHERENT"[0] == 'R';
      assert forall i :: 0 <= i < |lifecycleStates| ==> lifecycleStates[i] in lifecycleStates;
    }
  }

  // ---- contributors ----

  datatype Direction = Positive | Negative | Neutral

  datatype Contributor = Contributor(key: string, dimension: string, caption: string, score: Option<real>,
                                     direction: Direction)

  function Abs(x: real): real {
    if x < 0.0 then -x else x
  }

  /** Distance from neutral; a missing score comes after every present one. */
  function Magnitude(c: Contributor): real {
    if c.score.None? then -1.0 else Abs(c.score.value - 50.0)
  }

  /** The comparator's sign is at most zero. */
  predicate ContributorLe(compare: (string, string) -> int, a: Contributor, b: Contributor) {
    if Magnitude(a) != Magnitude(b) then Magnitude(a) > Magnitude(b)
    else if a.score.GetOr(-1.0) != b.score.GetOr(-1.0) then a.score.GetOr(-1.0) > b.score.GetOr(-1.0)
    else compare(a.key, b.key) <= 0
  }

  function Order(compare: (string, string) -> int): (Contributor, Contributor) -> bool {
    (a, b) => ContributorLe(compare, a, b)
  }

  /** `sortPublicContributors`. */
  function SortPublicContributors(compare: (string, string) -> int, cs: seq<Contributor>): seq<Contributor> {
    Sort(Order(compare), cs)
  }

  lemma OrderIsTotal(compare: (string, string) -> int)
    requires IsLocaleOrder(compare)
    ensures TotalPreorder(Order(compare))
  {
    hide Magnitude;
  }

  /** No two positions hold keys that compare as equal. */
  ghost predicate KeysApart(compare: (string, string) -> int, cs: seq<Contributor>) {
    forall i, j :: 0 <= i < j < |cs| ==> compare(cs[i].key, cs[j].key) != 0
  }

  /** No two positions are tied. */
  ghost predicate NoTies<T(!new)>(le: (T, T) -> bool, s: seq<T>) {
    forall i, j :: 0 <= i < j < |s| ==> !(le(s[i], s[j]) && le(s[j], s[i]))
  }

  lemma {:induction false} TiesCounted<T(!new)>(le: (T, T) -> bool, y: T, s: seq<T>, x: T)
    ensures multiset(Ties(le, y, s))[x] == if le(y, x) && le(x, y) then multiset(s)[x] else 0
  {
    if s != [] {
      TiesCounted(le, y, s[1..], x);
      assert s == [s[0]] + s[1..];
    }
  }

  lemma HeadNotTied<T(!new)>(le: (T, T) -> bool, s: seq<T>, x: T)
    requires NoTies(le, s) && s != [] && x in s[1..]
    ensures !(le(s[0], x) && le(x, s[0]))
  {
    var j :| 0 <= j < |s[1..]| && s[1..][j] == x;
    assert s[j + 1] == x;
  }

  lemma {:induction false} AtMostOneTie<T(!new)>(le: (T, T) -> bool, y: T, s: seq<T>)
    requires TotalPreorder(le) && NoTies(le, s)
    ensures |Ties(le, y, s)| <= 1
  {
    if s != [] {
      AtMostOneTie(le, y, s[1..]);
      hide NoTies;
      if le(y, s[0]) && le(s[0], y) {
        var rest := Ties(le, y, s[1..]);
        TieIsMember(le, y, s[1..]);
        if rest != [] {
          assert rest[0] in rest;
          HeadNotTied(le, s, rest[0]);
        }
      }
    }
  }

  lemma ShortSequencesEqual<T(!new)>(s: seq<T>, t: seq<T>)
    requires |s| <= 1 && |t| <= 1 && multiset(s) == multiset(t)
    ensures s == t
  {
    if s != [] {
      assert s[0] in multiset(s);
      assert s[0] in t;
    }
    assert |s| == |multiset(s)| == |multiset(t)| == |t|;
  }

  /** Lists with the same elements and no ties sort to the same list. */
  lemma SortForgetsOrder<T(!new)>(le: (T, T) -> bool, s: seq<T>, t: seq<T>)
    requires TotalPreorder(le) && NoTies(le, s) && NoTies(le, t) && multiset(s) == multiset(t)
    ensures Sort(le, s) == Sort(le, t)
  {
    SortSorts(le, s);
    SortSorts(le, t);
    forall y ensures Ties(le, y, Sort(le, s)) == Ties(le, y, Sort(le, t)) {
      SortStable(le, s, y);
      SortStable(le, t, y);
      AtMostOneTie(le, y, s);
      AtMostOneTie(le, y, t);
      forall x ensures multiset(Ties(le, y, s))[x] == multiset(Ties(le, y, t))[x] {
        TiesCounted(le, y, s, x);
        TiesCounted(le, y, t, x);
      }
      ShortSequencesEqual(Ties(le, y, s), Ties(le, y, t));
    }
    hide *;
    StableSortUnique(le, Sort(le, s), Sort(le, t));
  }

  /** With keys apart, the listed contributors depend only on which there are, not on the order they came in. */
  lemma ContributorsCanonical(compare: (string, string) -> int, cs: seq<Contributor>, ds: seq<Contributor>)
    requires IsLocaleOrder(compare) && KeysApart(compare, cs) && KeysApart(compare, ds)
    requires multiset(cs) == multiset(ds)
    ensures SortPublicContributors(compare, cs) == SortPublicContributors(compare, ds)
  {
    OrderIsTotal(compare);
    assert NoTies(Order(compare), cs) && NoTies(Order(compare), ds);
    SortForgetsOrder(Order(compare), cs, ds);
  }

  /** Scored contributors come first, by falling distance from neutral. */
  lemma ScoredFirst(compare: (string, string) -> int, cs: seq<Contributor>, i: nat, j: nat)
    requires IsLocaleOrder(compare) && i < j < |cs| && |SortPublicContributors(compare, cs)| == |cs|
    ensures var sorted := SortPublicContributors(compare, cs);
      (sorted[j].score.Some? ==> sorted[i].score.Some?) && Magnitude(sorted[i]) >= Magnitude(sorted[j])
  {
    OrderIsTotal(compare);
    SortSorts(Order(compare), cs);
    var sorted := SortPublicContributors(compare, cs);
    assert Order(compare)(sorted[i], sorted[j]);
  }

  /** Scored before unscored; then the farther from neutral; then the higher score; then the smaller key. */
  predicate ComesBefore(compare: (string, string) -> int, a: Contributor, b: Contributor) {
    if a.score.None? || b.score.None? then
      a.score.Some? || (b.score.None? && compare(a.key, b.key) <= 0)
    else
      var x, y := a.score.value, b.score.value;
      var far, near := if x < 50.0 then 50.0 - x else x - 50.0, if y < 50.0 then 50.0 - y else y - 50.0;
      far > near || (far == near && (x > y || (x == y && compare(a.key, b.key) <= 0)))
  }

  /** The list is a rearrangement in which every earlier contributor comes before every later one. */
  lemma ContributorsOrdered(compare: (string, string) -> int, cs: seq<Contributor>)
    requires IsLocaleOrder(compare)
    ensures var sorted := SortPublicContributors(compare, cs);
      && multiset(sorted) == multiset(cs)
      && forall i, j :: 0 <= i < j < |sorted| ==> ComesBefore(compare, sorted[i], sorted[j])
  {
    var sorted := SortPublicContributors(compare, cs);
    OrderIsTotal(compare);
    SortSorts(Order(compare), cs);
    SortPermutes(Order(compare), cs);
    forall i, j | 0 <= i < j < |sorted|
      ensures ComesBefore(compare, sorted[i], sorted[j])
    {
      assert Order(compare)(sorted[i], sorted[j]);
      ComparedExactly(compare, sorted[i], sorted[j]);
    }
  }

  lemma ComparedExactly(compare: (string, string) -> int, a: Contributor, b: Contributor)
    ensures ContributorLe(compare, a, b) <==> ComesBefore(compare, a, b)
  {
  }

  /** Keys that compare as equal leave the order they came in, so two orders of one list can differ. */
  lemma EqualKeysKeepInputOrder(compare: (string, string) -> int, a: Contributor, b: Contributor)
    requires IsLocaleOrder(compare) && a.score == b.score && compare(a.key, b.key) == 0
    ensures SortPublicContributors(compare, [a, b]) == [a, b]
  {
    OrderIsTotal(compare);
    var le := Order(compare);
    assert le(a, b);
    assert Sorted(le, [a, b]);
    SortOfSorted(le, [a, b]);
  }
}
