/** The identities of capability evidence (packages/contracts/src/capability-evidence-v1.ts), before hashing. */
module CapabilityEvidence {
  import opened Wrappers
  import opened JsHost
  import opened JsonText
  import opened Sorting
  import opened Delimited

  const COMMA_UNIT: Unit := 44
  const BAR_UNIT: Unit := 124

  /** Different doubles print differently, never as nothing, and without comma or bar. */
  ghost predicate PrintsNumerals(h: Numbers<Unit>) {
    TellsApart(h) && NeverPrints(h, COMMA_UNIT) && NeverPrints(h, BAR_UNIT)
  }

  // ---- lists of numbers ----

  /** `filter(Number.isFinite)`; a value that is not finite is `None`. */
  function Finite(values: seq<Option<real>>): seq<real> {
    if values == [] then []
    else (if values[0].Some? then [values[0].value] else []) + Finite(values[1..])
  }

  /** `[...new Set(values)]`: the first of each. */
  function Distinct(values: seq<real>, seen: set<real>): seq<real> {
    if values == [] then []
    else if values[0] in seen then Distinct(values[1..], seen)
    else [values[0]] + Distinct(values[1..], seen + {values[0]})
  }

  predicate RealLe(a: real, b: real) {
    a <= b
  }

  function Texts(h: Numbers<Unit>, values: seq<real>): (texts: seq<Text>)
    ensures |texts| == |values| && forall i :: 0 <= i < |values| ==> texts[i] == h.text(values[i])
  {
    if values == [] then [] else [h.text(values[0])] + Texts(h, values[1..])
  }

  function SortedDistinct(values: seq<Option<real>>): seq<real> {
    Sort(RealLe, Distinct(Finite(values), {}))
  }

  /** What `hashSortedInts` hashes. */
  function SortedText(h: Numbers<Unit>, values: seq<Option<real>>): Text {
    Join(COMMA_UNIT, Texts(h, SortedDistinct(values)))
  }

  /** The set of numbers a list denotes. */
  function Members(values: seq<Option<real>>): set<real> {
    set i | 0 <= i < |values| && values[i].Some? :: values[i].value
  }

  lemma {:induction false} FiniteExactly(values: seq<Option<real>>, x: real)
    ensures x in Finite(values) <==> Some(x) in values
  {
    if values != [] {
      FiniteExactly(values[1..], x);
      assert values == [values[0]] + values[1..];
    }
  }

  lemma {:induction false} DistinctExactly(values: seq<real>, seen: set<real>)
    ensures forall x :: x in Distinct(values, seen) <==> x in values && x !in seen
    ensures forall i, j :: 0 <= i < j < |Distinct(values, seen)| ==>
      Distinct(values, seen)[i] != Distinct(values, seen)[j]
  {
    if values != [] {
      DistinctExactly(values[1..], seen);
      DistinctExactly(values[1..], seen + {values[0]});
      assert values == [values[0]] + values[1..];
    }
  }

  lemma {:induction false} MultisetOfDistinct<T>(s: seq<T>, x: T)
    requires forall i, j :: 0 <= i < j < |s| ==> s[i] != s[j]
    ensures multiset(s)[x] == if x in s then 1 else 0
  {
    if s != [] {
      MultisetOfDistinct(s[1..], x);
      assert s == [s[0]] + s[1..];
      assert s[0] !in s[1..];
    }
  }

  lemma RealOrder()
    ensures TotalPreorder(RealLe) && Antisymmetric(RealLe)
  {
  }

  lemma SortedDistinctMembers(values: seq<Option<real>>, x: real)
    ensures x in SortedDistinct(values) <==> x in Members(values)
  {
    var finite := Finite(values);
    FiniteExactly(values, x);
    DistinctExactly(finite, {});
    MemberOfSort(RealLe, Distinct(finite, {}), x);
    if Some(x) in values {
      var i :| 0 <= i < |values| && values[i] == Some(x);
    }
    hide Finite, Distinct, Sort;
  }

  /** Lists of the same numbers have the same sorted form, however repeated and ordered. */
  lemma SortedDistinctCanonical(v: seq<Option<real>>, w: seq<Option<real>>)
    ensures SortedDistinct(v) == SortedDistinct(w) <==> Members(v) == Members(w)
  {
    var a, b := Distinct(Finite(v), {}), Distinct(Finite(w), {});
    forall x ensures x in SortedDistinct(v) <==> x in Members(v) {
      SortedDistinctMembers(v, x);
    }
    forall x ensures x in SortedDistinct(w) <==> x in Members(w) {
      SortedDistinctMembers(w, x);
    }
    if Members(v) == Members(w) {
      DistinctExactly(Finite(v), {});
      DistinctExactly(Finite(w), {});
      forall x ensures multiset(a)[x] == multiset(b)[x] {
        MultisetOfDistinct(a, x);
        MultisetOfDistinct(b, x);
        MemberOfSort(RealLe, a, x);
        MemberOfSort(RealLe, b, x);
        assert x in SortedDistinct(v) <==> x in SortedDistinct(w);
      }
      RealOrder();
      hide Finite, Distinct, Members, Sort, RealLe;
      SortsAgree(RealLe, a, b);
    } else if SortedDistinct(v) == SortedDistinct(w) {
      hide *;
      assert forall x :: x in Members(v) <==> x in SortedDistinct(v);
      assert forall x :: x in Members(w) <==> x in SortedDistinct(v);
    }
  }

  lemma {:induction false} SameTexts(h: Numbers<Unit>, a: seq<real>, b: seq<real>)
    requires PrintsNumerals(h) && (forall x :: x in a ==> x in h.doubles) && (forall x :: x in b ==> x in h.doubles)
    ensures Texts(h, a) == Texts(h, b) <==> a == b
  {
    hide PrintsNumerals;
    if Texts(h, a) == Texts(h, b) {
      assert |a| == |Texts(h, a)| == |Texts(h, b)| == |b|;
      forall i | 0 <= i < |a| ensures a[i] == b[i] {
        assert h.text(a[i]) == Texts(h, a)[i] == Texts(h, b)[i] == h.text(b[i]);
        assert a[i] in a && b[i] in b;
        TextInjective(h, a[i], b[i]);
      }
    }
  }

  lemma TextInjective(h: Numbers<Unit>, x: real, y: real)
    requires PrintsNumerals(h) && x in h.doubles && y in h.doubles && h.text(x) == h.text(y)
    ensures x == y
  {
  }

  predicate Worded(sep: Unit, parts: seq<Text>) {
    forall i :: 0 <= i < |parts| ==> parts[i] != [] && sep !in parts[i]
  }

  lemma JoinOfWords(sep: Unit, parts: seq<Text>)
    requires Worded(sep, parts)
    ensures Join(sep, parts) == [] <==> parts == []
  {
  }

  /** Joined words tell lists apart, the empty one included. */
  lemma WordsInjective(sep: Unit, xs: seq<Text>, ys: seq<Text>)
    requires Worded(sep, xs) && Worded(sep, ys)
    ensures Join(sep, xs) == Join(sep, ys) <==> xs == ys
  {
    JoinOfWords(sep, xs);
    JoinOfWords(sep, ys);
    if xs != [] && ys != [] {
      JoinInjective(sep, xs, ys);
    }
    hide Join;
  }

  lemma TextsWorded(h: Numbers<Unit>, a: seq<real>)
    requires PrintsNumerals(h) && forall x :: x in a ==> x in h.doubles
    ensures Worded(COMMA_UNIT, Texts(h, a))
  {
    forall i | 0 <= i < |a| ensures h.text(a[i]) != [] && COMMA_UNIT !in h.text(a[i]) {
      var x := a[i];
      assert x in a && x in h.doubles;
    }
  }

  /** The hashed texts of two lists agree exactly when the lists hold the same finite numbers. */
  lemma SortedTextExactly(h: Numbers<Unit>, v: seq<Option<real>>, w: seq<Option<real>>)
    requires PrintsNumerals(h) && Members(v) <= h.doubles && Members(w) <= h.doubles
    ensures SortedText(h, v) == SortedText(h, w) <==> Members(v) == Members(w)
  {
    var a, b := SortedDistinct(v), SortedDistinct(w);
    hide SortedDistinct, Texts, Join, PrintsNumerals, Members;
    forall x | x in a ensures x in h.doubles {
      SortedDistinctMembers(v, x);
    }
    forall x | x in b ensures x in h.doubles {
      SortedDistinctMembers(w, x);
    }
    TextsWorded(h, a);
    TextsWorded(h, b);
    WordsInjective(COMMA_UNIT, Texts(h, a), Texts(h, b));
    SameTexts(h, a, b);
    SortedDistinctCanonical(v, w);
  }

  /** The numbers hashed ascend strictly, and are the finite ones of the list. */
  lemma SortedTextAscends(h: Numbers<Unit>, values: seq<Option<real>>) returns (numbers: seq<real>)
    ensures SortedText(h, values) == Join(44, Texts(h, numbers))
    ensures forall i, j :: 0 <= i < j < |numbers| ==> numbers[i] < numbers[j]
    ensures forall x :: x in numbers <==> x in Members(values)
  {
    var distinct := Distinct(Finite(values), {});
    numbers := SortedDistinct(values);
    forall x
      ensures x in numbers <==> x in Members(values)
    {
      SortedDistinctMembers(values, x);
    }
    DistinctExactly(Finite(values), {});
    SortSorts(RealLe, distinct);
    SortPermutes(RealLe, distinct);
    hide Distinct, Finite, Sort, Members, Join;
    forall i, j | 0 <= i < j < |numbers|
      ensures numbers[i] < numbers[j]
    {
      assert RealLe(numbers[i], numbers[j]);
      if numbers[i] == numbers[j] {
        MultisetOfDistinct(distinct, numbers[i]);
        TwicePresent(numbers, i, j);
      }
    }
  }

  lemma TwicePresent(numbers: seq<real>, i: nat, j: nat)
    requires i < j < |numbers| && numbers[i] == numbers[j]
    ensures multiset(numbers)[numbers[i]] >= 2
  {
    assert numbers == numbers[..j] + [numbers[j]] + numbers[j + 1..];
    assert numbers[..j][i] == numbers[i];
  }

  // ---- capability names ----

  lemma NameOrder()
    ensures TotalPreorder(LexLe) && Antisymmetric(LexLe)
  {
    forall a, b ensures LexLe(a, b) || LexLe(b, a) {
      LexTotal(a, b);
    }
    forall a, b, c | LexLe(a, b) && LexLe(b, c) ensures LexLe(a, c) {
      LexTransitive(a, b, c);
    }
    forall a, b | LexLe(a, b) && LexLe(b, a) ensures a == b {
      LexAntisymmetric(a, b);
    }
    hide LexLe;
  }

  /** What `hashCapabilitySet` hashes. */
  function CapabilityText(capabilities: seq<Text>): Text {
    Join(COMMA_UNIT, Sort(LexLe, capabilities))
  }

  lemma SortWorded(capabilities: seq<Text>)
    requires Worded(COMMA_UNIT, capabilities)
    ensures Worded(COMMA_UNIT, Sort(LexLe, capabilities))
  {
    var sorted := Sort(LexLe, capabilities);
    forall i | 0 <= i < |sorted| ensures sorted[i] != [] && COMMA_UNIT !in sorted[i] {
      MemberOfSort(LexLe, capabilities, sorted[i]);
    }
  }

  /**
    The hashed texts of two lists of capability names agree exactly when each name is listed equally often: order is
    forgotten, repetition is not.
   */
  lemma CapabilityTextExactly(v: seq<Text>, w: seq<Text>)
    requires Worded(COMMA_UNIT, v) && Worded(COMMA_UNIT, w)
    ensures CapabilityText(v) == CapabilityText(w) <==> multiset(v) == multiset(w)
  {
    SortWorded(v);
    SortWorded(w);
    NameOrder();
    hide Sort, Join, Worded, LexLe;
    WordsInjective(COMMA_UNIT, Sort(LexLe, v), Sort(LexLe, w));
    SortsAgree(LexLe, v, w);
  }

  /** The names hashed are those of the list, ascending by code unit. */
  lemma CapabilityTextAscends(capabilities: seq<Text>) returns (names: seq<Text>)
    ensures CapabilityText(capabilities) == Join(44, names) && multiset(names) == multiset(capabilities)
    ensures forall i, j :: 0 <= i < j < |names| ==> names[i] == names[j] || Precedes(names[i], names[j])
  {
    names := Sort(LexLe, capabilities);
    NameOrder();
    SortSorts(LexLe, capabilities);
    SortPermutes(LexLe, capabilities);
    forall i, j | 0 <= i < j < |names|
      ensures names[i] == names[j] || Precedes(names[i], names[j])
    {
      assert LexLe(names[i], names[j]);
      LexExactly(names[i], names[j]);
    }
    hide Sort, LexLe, Precedes, Join;
  }

  // ---- the compatibility key ----

  datatype Identity = Identity(
    reportCode: Text,
    fightId: real,
    reportRevision: real,
    dataset: Text,
    capabilitySet: seq<Text>,
    actorSetHash: Text,
    abilityFilterHash: Text,
    catalogVersion: Text,
    packageSchemaVersion: Text,
    acquisitionPlanVersion: Text,
    graphqlQueryVersion: Text,
    mode: Text)

  /** wcl-capability-evidence */
  const FAMILY: Text :=
      [119, 99, 108, 45, 99, 97, 112, 97, 98, 105, 108, 105, 116, 121, 45, 101, 118, 105, 100, 101, 110,
                         99, 101]
  /** caps: */
  const CAPS: Text := [99, 97, 112, 115, 58]
  /** actors: */
  const ACTORS: Text := [97, 99, 116, 111, 114, 115, 58]
  /** abilities: */
  const ABILITIES: Text := [97, 98, 105, 108, 105, 116, 105, 101, 115, 58]
  /** catalog: */
  const CATALOG: Text := [99, 97, 116, 97, 108, 111, 103, 58]

  const R_UNIT: Unit := 114
  const F_UNIT: Unit := 102

  /** How the parts of `capabilityEvidenceCompatibilityKeyString` begin. */
  const TAGS: seq<Text> := [FAMILY, [], [R_UNIT], [F_UNIT], [], CAPS, ACTORS, ABILITIES, CATALOG, [], [], [], []]

  /** The rest of each part; `hash` is the shortened digest. */
  function KeyTexts(h: Numbers<Unit>, hash: Text -> Text, id: Identity): seq<Text> {
    [[], id.reportCode, h.text(id.reportRevision), h.text(id.fightId), id.dataset,
     hash(CapabilityText(id.capabilitySet)),
     id.actorSetHash, id.abilityFilterHash, id.catalogVersion, id.packageSchemaVersion, id.acquisitionPlanVersion,
     id.graphqlQueryVersion, id.mode]
  }

  function KeyString(h: Numbers<Unit>, hash: Text -> Text, id: Identity): Text {
    Join(BAR_UNIT, Tagged(TAGS, KeyTexts(h, hash, id)))
  }

  /** No text but the mode holds what reads as its end, and the numbers are doubles. */
  predicate Unmistakable(h: Numbers<Unit>, hash: Text -> Text, id: Identity) {
    EndsOnce(BAR_UNIT, TAGS, KeyTexts(h, hash, id)) && id.fightId in h.doubles && id.reportRevision in h.doubles
  }

  /** The same identity up to the order of the capabilities. */
  predicate SameIdentity(a: Identity, b: Identity) {
    && a.(capabilitySet := []) == b.(capabilitySet := [])
    && multiset(a.capabilitySet) == multiset(b.capabilitySet)
  }

  lemma TagsAreFree()
    ensures |TAGS| == 13 && TagsFree(BAR_UNIT, TAGS)
  {
    assert BAR_UNIT !in CAPS && BAR_UNIT !in ACTORS && BAR_UNIT !in ABILITIES && BAR_UNIT !in CATALOG;
    hide FAMILY, CAPS, ACTORS, ABILITIES, CATALOG;
  }

  /** It is enough that no text holds the separator. */
  lemma BarFreeIsUnmistakable(h: Numbers<Unit>, hash: Text -> Text, id: Identity)
    requires id.fightId in h.doubles && id.reportRevision in h.doubles
    requires forall i :: 0 <= i < 13 ==> BAR_UNIT !in KeyTexts(h, hash, id)[i]
    ensures Unmistakable(h, hash, id)
  {
    TagsAreFree();
    var texts := KeyTexts(h, hash, id);
    assert |texts| == 13;
    hide KeyTexts, TAGS;
    forall i: nat | i + 1 < |TAGS|
      ensures !Contains(texts[i], EndMark(BAR_UNIT, TAGS, i))
    {
      HoldsNoMark(texts[i], EndMark(BAR_UNIT, TAGS, i));
    }
    hide Contains;
  }

  lemma KeyTextsExactly(h: Numbers<Unit>, hash: Text -> Text, a: Identity, b: Identity)
    requires PrintsNumerals(h) && Unmistakable(h, hash, a) && Unmistakable(h, hash, b)
    ensures KeyTexts(h, hash, a) == KeyTexts(h, hash, b) <==>
            && a.(capabilitySet := []) == b.(capabilitySet := [])
            && hash(CapabilityText(a.capabilitySet)) == hash(CapabilityText(b.capabilitySet))
  {
    hide CapabilityText, EndsOnce;
    var ps, qs := KeyTexts(h, hash, a), KeyTexts(h, hash, b);
    if ps == qs {
      assert ps[1] == qs[1] && ps[2] == qs[2] && ps[3] == qs[3] && ps[4] == qs[4] && ps[5] == qs[5] && ps[6] == qs[6];
      assert ps[7] == qs[7] && ps[8] == qs[8] && ps[9] == qs[9] && ps[10] == qs[10] && ps[11] == qs[11] &&
        ps[12] == qs[12];
      TextInjective(h, a.reportRevision, b.reportRevision);
      TextInjective(h, a.fightId, b.fightId);
    }
  }

  /**
    For unmistakable identities and a hash without a collision on the two capability texts, keys agree exactly when the
    identities do; so streams under different ability filters never share a key.
   */
  lemma KeysAgreeExactly(h: Numbers<Unit>, hash: Text -> Text, a: Identity, b: Identity)
    requires PrintsNumerals(h) && Unmistakable(h, hash, a) && Unmistakable(h, hash, b)
    requires Worded(COMMA_UNIT, a.capabilitySet) && Worded(COMMA_UNIT, b.capabilitySet)
    requires hash(CapabilityText(a.capabilitySet)) == hash(CapabilityText(b.capabilitySet)) ==>
      CapabilityText(a.capabilitySet) == CapabilityText(b.capabilitySet)
    ensures KeyString(h, hash, a) == KeyString(h, hash, b) <==> SameIdentity(a, b)
    ensures a.abilityFilterHash != b.abilityFilterHash ==> KeyString(h, hash, a) != KeyString(h, hash, b)
  {
    TagsAreFree();
    CapabilityTextExactly(a.capabilitySet, b.capabilitySet);
    KeyTextsExactly(h, hash, a, b);
    hide TAGS, KeyTexts, CapabilityText, Join, PrintsNumerals, EndsOnce, Worded, TagsFree, Tagged;
    TaggedInjective(BAR_UNIT, TAGS, KeyTexts(h, hash, a), KeyTexts(h, hash, b));
  }

  /** The identity with another text in part `i`, from the actors on. */
  function WithText(id: Identity, i: nat, text: Text): Identity {
    match i
    case 6 => id.(actorSetHash := text)
    case 7 => id.(abilityFilterHash := text)
    case 8 => id.(catalogVersion := text)
    case 9 => id.(packageSchemaVersion := text)
    case 10 => id.(acquisitionPlanVersion := text)
    case 11 => id.(graphqlQueryVersion := text)
    case _ => id.(mode := text)
  }

  lemma WithTextExactly(h: Numbers<Unit>, hash: Text -> Text, id: Identity, i: nat, text: Text)
    requires 6 <= i < 13
    ensures KeyTexts(h, hash, WithText(id, i, text)) == KeyTexts(h, hash, id)[i := text]
    ensures WithText(id, i, text).capabilitySet == id.capabilitySet
  {
    hide CapabilityText;
  }

  /** From the actors on, a text that holds its end shares its key with the identity in which the boundary is moved. */
  lemma TextBoundaryMoves(h: Numbers<Unit>, hash: Text -> Text, id: Identity, i: nat, a: Text, b: Text)
      returns (d: Identity)
    requires |TAGS| == 13 && 6 <= i < 12 && KeyTexts(h, hash, id)[i] == a + EndMark(BAR_UNIT, TAGS, i) + b
    ensures KeyString(h, hash, d) == KeyString(h, hash, id) && !SameIdentity(d, id)
  {
    var texts, moved := KeyTexts(h, hash, id), b + EndMark(BAR_UNIT, TAGS, i) + KeyTexts(h, hash, id)[i + 1];
    d := WithText(WithText(id, i, a), i + 1, moved);
    WithTextExactly(h, hash, id, i, a);
    WithTextExactly(h, hash, WithText(id, i, a), i + 1, moved);
    assert |texts| == 13;
    hide WithText, KeyTexts, TAGS, Join, Tagged;
    var texts' := EndMoves(BAR_UNIT, TAGS, texts, i, a, b);
    assert texts' == KeyTexts(h, hash, d);
    if SameIdentity(d, id) {
      SameTextsAtEqualHash(h, hash, d, id);
    }
  }

  lemma SameTextsAtEqualHash(h: Numbers<Unit>, hash: Text -> Text, a: Identity, b: Identity)
    requires SameIdentity(a, b) && a.capabilitySet == b.capabilitySet
    ensures KeyTexts(h, hash, a) == KeyTexts(h, hash, b)
  {
    assert a == a.(capabilitySet := []).(capabilitySet := b.capabilitySet);
    assert b == b.(capabilitySet := []).(capabilitySet := b.capabilitySet);
  }
}
