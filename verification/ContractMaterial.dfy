/** The versions of the refresh contract and their hash material (packages/contracts/src/refresh-contract.ts). */
module ContractMaterial {
  import opened Wrappers
  import opened JsHost
  import opened Delimited

  // ---- values ----

  /** A JavaScript number; positive and negative zero are one number, as `===` and printing have it. */
  datatype Num = NaN | Infinite(positive: bool) | Finite(r: real)

  /** Different doubles print differently, in digits, sign, point and exponent. */
  ghost predicate PrintsNumerals(h: Numbers<char>) {
    && TellsApart(h) && NeverPrints(h, '|')
    && NeverReads(h, {"NaN", "Infinity", "-Infinity", "null", "current"})
  }

  function NumText(h: Numbers<char>, n: Num): string {
    match n
    case NaN => "NaN"
    case Infinite(positive) => if positive then "Infinity" else "-Infinity"
    case Finite(r) => h.text(r)
  }

  datatype Key =
    | ScoringModelKey | ScoringModelVersion | ObservationSchemaVersion | WclAdapterVersion | BlizzardAdapterVersion
    | RaiderIoAdapterVersion | RunSelectionVersion | AbilityCatalogVersion | AbilityCatalogExecutionKey
    | MechanicCatalogVersion | ActiveSeasonId | ZoneId | Partition

  const KEYS: seq<Key> := [
    ScoringModelKey, ScoringModelVersion, ObservationSchemaVersion, WclAdapterVersion, BlizzardAdapterVersion,
    RaiderIoAdapterVersion, RunSelectionVersion, AbilityCatalogVersion, AbilityCatalogExecutionKey,
    MechanicCatalogVersion, ActiveSeasonId, ZoneId, Partition]

  datatype Contract = Contract(
    scoringModelKey: string,
    scoringModelVersion: Num,
    observationSchemaVersion: string,
    wclAdapterVersion: string,
    blizzardAdapterVersion: string,
    raiderIoAdapterVersion: string,
    runSelectionVersion: string,
    abilityCatalogVersion: string,
    abilityCatalogExecutionKey: string,
    mechanicCatalogVersion: string,
    activeSeasonId: string,
    zoneId: Option<Num>,
    partition: Option<Num>)

  datatype Value = Text(s: string) | Number(n: Num) | Null

  function Nullable(n: Option<Num>): Value {
    if n.Some? then Number(n.value) else Null
  }

  function Get(c: Contract, k: Key): Value {
    match k
    case ScoringModelKey => Text(c.scoringModelKey)
    case ScoringModelVersion => Number(c.scoringModelVersion)
    case ObservationSchemaVersion => Text(c.observationSchemaVersion)
    case WclAdapterVersion => Text(c.wclAdapterVersion)
    case BlizzardAdapterVersion => Text(c.blizzardAdapterVersion)
    case RaiderIoAdapterVersion => Text(c.raiderIoAdapterVersion)
    case RunSelectionVersion => Text(c.runSelectionVersion)
    case AbilityCatalogVersion => Text(c.abilityCatalogVersion)
    case AbilityCatalogExecutionKey => Text(c.abilityCatalogExecutionKey)
    case MechanicCatalogVersion => Text(c.mechanicCatalogVersion)
    case ActiveSeasonId => Text(c.activeSeasonId)
    case ZoneId => Nullable(c.zoneId)
    case Partition => Nullable(c.partition)
  }

  // ---- the hash material ----

  function Name(k: Key): string {
    match k
    case ScoringModelKey => "scoringModelKey="
    case ScoringModelVersion => "scoringModelVersion="
    case ObservationSchemaVersion => "observationSchemaVersion="
    case WclAdapterVersion => "wclAdapterVersion="
    case BlizzardAdapterVersion => "blizzardAdapterVersion="
    case RaiderIoAdapterVersion => "raiderIoAdapterVersion="
    case RunSelectionVersion => "runSelectionVersion="
    case AbilityCatalogVersion => "abilityCatalogVersion="
    case AbilityCatalogExecutionKey => "abilityCatalogExecutionKey="
    case MechanicCatalogVersion => "mechanicCatalogVersion="
    case ActiveSeasonId => "activeSeasonId="
    case ZoneId => "zoneId="
    case Partition => "partition="
  }

  function Show(h: Numbers<char>, k: Key, v: Value): string {
    match v
    case Text(s) => s
    case Number(n) => NumText(h, n)
    case Null => if k.Partition? then "current" else "null"
  }

  function Part(h: Numbers<char>, c: Contract, k: Key): string {
    Name(k) + Show(h, k, Get(c, k))
  }

  function Parts(h: Numbers<char>, c: Contract): (parts: seq<string>)
    ensures |parts| == |KEYS| && forall i :: 0 <= i < |KEYS| ==> parts[i] == Part(h, c, KEYS[i])
  {
    seq(|KEYS|, i requires 0 <= i < |KEYS| => Part(h, c, KEYS[i]))
  }

  /** `refreshContractMaterial`. */
  function Material(h: Numbers<char>, c: Contract): string {
    Join('|', Parts(h, c))
  }

  function NumberOr(h: Numbers<char>, n: Option<Num>, missing: string): string {
    if n.Some? then NumText(h, n.value) else missing
  }

  /** A field after its name. */
  function FieldText(h: Numbers<char>, c: Contract, k: Key): string {
    match k
    case ScoringModelKey => "scoringModelKey=" + c.scoringModelKey
    case ScoringModelVersion => "scoringModelVersion=" + NumText(h, c.scoringModelVersion)
    case ObservationSchemaVersion => "observationSchemaVersion=" + c.observationSchemaVersion
    case WclAdapterVersion => "wclAdapterVersion=" + c.wclAdapterVersion
    case BlizzardAdapterVersion => "blizzardAdapterVersion=" + c.blizzardAdapterVersion
    case RaiderIoAdapterVersion => "raiderIoAdapterVersion=" + c.raiderIoAdapterVersion
    case RunSelectionVersion => "runSelectionVersion=" + c.runSelectionVersion
    case AbilityCatalogVersion => "abilityCatalogVersion=" + c.abilityCatalogVersion
    case AbilityCatalogExecutionKey => "abilityCatalogExecutionKey=" + c.abilityCatalogExecutionKey
    case MechanicCatalogVersion => "mechanicCatalogVersion=" + c.mechanicCatalogVersion
    case ActiveSeasonId => "activeSeasonId=" + c.activeSeasonId
    case ZoneId => "zoneId=" + NumberOr(h, c.zoneId, "null")
    case Partition => "partition=" + NumberOr(h, c.partition, "current")
  }

  lemma PartIsField(h: Numbers<char>, c: Contract, k: Key)
    ensures Part(h, c, k) == FieldText(h, c, k)
  {
    hide NumText;
  }

  /** The material is the thirteen fields in this order, each after its name, joined by bars. */
  lemma MaterialExactly(h: Numbers<char>, c: Contract) returns (texts: seq<string>)
    ensures KEYS == [ScoringModelKey, ScoringModelVersion, ObservationSchemaVersion, WclAdapterVersion,
                     BlizzardAdapterVersion, RaiderIoAdapterVersion, RunSelectionVersion, AbilityCatalogVersion,
                     AbilityCatalogExecutionKey, MechanicCatalogVersion, ActiveSeasonId, ZoneId, Partition]
    ensures Material(h, c) == Join('|', texts) && |texts| == |KEYS|
    ensures forall i :: 0 <= i < |texts| ==> texts[i] == FieldText(h, c, KEYS[i])
  {
    texts := Parts(h, c);
    hide Part, FieldText, Join;
    forall i | 0 <= i < |texts|
      ensures texts[i] == FieldText(h, c, KEYS[i])
    {
      PartIsField(h, c, KEYS[i]);
    }
  }

  predicate HoldsDouble(h: Numbers<char>, v: Value) {
    v.Number? && v.n.Finite? ==> v.n.r in h.doubles
  }

  ghost predicate HoldsDoubles(h: Numbers<char>, c: Contract) {
    forall k :: HoldsDouble(h, Get(c, k))
  }

  lemma KeyListed(k: Key) returns (i: nat)
    ensures i < |KEYS| && KEYS[i] == k
  {
    i := match k
      case ScoringModelKey => 0
      case ScoringModelVersion => 1
      case ObservationSchemaVersion => 2
      case WclAdapterVersion => 3
      case BlizzardAdapterVersion => 4
      case RaiderIoAdapterVersion => 5
      case RunSelectionVersion => 6
      case AbilityCatalogVersion => 7
      case AbilityCatalogExecutionKey => 8
      case MechanicCatalogVersion => 9
      case ActiveSeasonId => 10
      case ZoneId => 11
      case Partition => 12;
  }

  lemma ModelNamesBarFree()
    ensures '|' !in Name(ScoringModelKey) && '|' !in Name(ScoringModelVersion) && '|' !in Name(ObservationSchemaVersion)
  {
  }

  lemma AdapterNamesBarFree()
    ensures '|' !in Name(WclAdapterVersion) && '|' !in Name(BlizzardAdapterVersion) &&
      '|' !in Name(RaiderIoAdapterVersion)
  {
  }

  lemma CatalogNamesBarFree()
    ensures '|' !in Name(AbilityCatalogVersion) && '|' !in Name(AbilityCatalogExecutionKey)
    ensures '|' !in Name(MechanicCatalogVersion)
  {
  }

  lemma ScopeNamesBarFree()
    ensures '|' !in Name(RunSelectionVersion) && '|' !in Name(ActiveSeasonId) && '|' !in Name(ZoneId)
    ensures '|' !in Name(Partition)
  {
  }

  lemma NameBarFree(k: Key)
    ensures '|' !in Name(k)
  {
    hide Name;
    ModelNamesBarFree();
    AdapterNamesBarFree();
    CatalogNamesBarFree();
    ScopeNamesBarFree();
  }

  /** What the field at position `i` prints as. */
  function Shown(h: Numbers<char>, c: Contract, i: nat): string
    requires i < |KEYS|
  {
    Show(h, KEYS[i], Get(c, KEYS[i]))
  }

  lemma ShownBarFree(h: Numbers<char>, c: Contract, i: nat)
    requires PrintsNumerals(h) && HoldsDoubles(h, c) && i < |KEYS| && !Get(c, KEYS[i]).Text?
    ensures '|' !in Shown(h, c, i)
  {
    var v := Get(c, KEYS[i]);
    assert HoldsDouble(h, v);
    assert '|' !in "NaN" && '|' !in "Infinity" && '|' !in "-Infinity" && '|' !in "null" && '|' !in "current";
    hide Get;
  }

  lemma NumTextExact(h: Numbers<char>, m: Num, n: Num)
    requires PrintsNumerals(h) && HoldsDouble(h, Number(m)) && HoldsDouble(h, Number(n))
    ensures NumText(h, m) == NumText(h, n) <==> m == n
    ensures NumText(h, m) != "null" && NumText(h, m) != "current"
  {
    assert "NaN"[0] == 'N' && "Infinity"[0] == 'I' && "-Infinity"[0] == '-' && "null"[0] == 'n' && "current"[0] == 'c';
    if m.Finite? && n.Finite? {
      assert h.text(m.r) == h.text(n.r) ==> m.r == n.r;
    }
  }

  lemma ShowExact(h: Numbers<char>, c: Contract, d: Contract, k: Key)
    requires PrintsNumerals(h) && HoldsDoubles(h, c) && HoldsDoubles(h, d)
    ensures Show(h, k, Get(c, k)) == Show(h, k, Get(d, k)) <==> Get(c, k) == Get(d, k)
  {
    var v, w := Get(c, k), Get(d, k);
    assert HoldsDouble(h, v) && HoldsDouble(h, w);
    assert v.Text? <==> w.Text?;
    if v.Number? && w.Number? {
      NumTextExact(h, v.n, w.n);
    } else if v.Number? {
      NumTextExact(h, v.n, v.n);
    } else if w.Number? {
      NumTextExact(h, w.n, w.n);
    }
    hide Get, PrintsNumerals, NumText;
  }

  lemma SameFields(c: Contract, d: Contract)
    requires forall k :: Get(c, k) == Get(d, k)
    ensures c == d
  {
    assert Get(c, ScoringModelKey) == Get(d, ScoringModelKey);
    assert Get(c, ScoringModelVersion) == Get(d, ScoringModelVersion);
    assert Get(c, ObservationSchemaVersion) == Get(d, ObservationSchemaVersion);
    assert Get(c, WclAdapterVersion) == Get(d, WclAdapterVersion);
    assert Get(c, BlizzardAdapterVersion) == Get(d, BlizzardAdapterVersion);
    assert Get(c, RaiderIoAdapterVersion) == Get(d, RaiderIoAdapterVersion);
    assert Get(c, RunSelectionVersion) == Get(d, RunSelectionVersion);
    assert Get(c, AbilityCatalogVersion) == Get(d, AbilityCatalogVersion);
    assert Get(c, AbilityCatalogExecutionKey) == Get(d, AbilityCatalogExecutionKey);
    assert Get(c, MechanicCatalogVersion) == Get(d, MechanicCatalogVersion);
    assert Get(c, ActiveSeasonId) == Get(d, ActiveSeasonId);
    assert Get(c, ZoneId) == Get(d, ZoneId);
    assert Get(c, Partition) == Get(d, Partition);
  }

  // ---- reading the material from the left ----

  /** The text that ends the field before position `i`. */
  function Mark(i: nat): string
    requires i < |KEYS|
  {
    ['|'] + Name(KEYS[i])
  }

  lemma MarkShape(i: nat)
    requires i < |KEYS|
    ensures Mark(i) != "" && Mark(i)[0] == '|' && '|' !in Mark(i)[1..]
  {
    NameBarFree(KEYS[i]);
    assert Mark(i)[1..] == Name(KEYS[i]);
    hide Name;
  }

  /** The material after the name of the field at position `i`. */
  function Rest(h: Numbers<char>, c: Contract, i: nat): string
    requires i < |KEYS|
    decreases |KEYS| - i
  {
    if i == |KEYS| - 1 then Shown(h, c, i) else Shown(h, c, i) + Mark(i + 1) + Rest(h, c, i + 1)
  }

  lemma {:induction false} JoinIsRest(h: Numbers<char>, c: Contract, i: nat)
    requires i < |KEYS|
    ensures Join('|', Parts(h, c)[i..]) == Name(KEYS[i]) + Rest(h, c, i)
    decreases |KEYS| - i
  {
    var parts := Parts(h, c);
    assert parts[i] == Name(KEYS[i]) + Shown(h, c, i);
    hide Parts, Shown, Name, KEYS;
    if i < |KEYS| - 1 {
      JoinIsRest(h, c, i + 1);
      assert parts[i..][1..] == parts[i + 1..];
      assert Join('|', parts[i..]) == parts[i] + ['|'] + Join('|', parts[i + 1..]);
      hide Rest, Join;
      Regroup(Name(KEYS[i]), Shown(h, c, i), Name(KEYS[i + 1]), Rest(h, c, i + 1));
      RestStep(h, c, i);
    } else {
      assert parts[i..] == [parts[i]];
    }
  }

  lemma Regroup(p: string, a: string, q: string, r: string)
    ensures (p + a) + ['|'] + (q + r) == p + (a + (['|'] + q) + r)
  {
  }

  lemma RestStep(h: Numbers<char>, c: Contract, i: nat)
    requires i < |KEYS| - 1
    ensures Rest(h, c, i) == Shown(h, c, i) + (['|'] + Name(KEYS[i + 1])) + Rest(h, c, i + 1)
  {
    hide Shown, Name;
  }

  lemma MaterialIsRest(h: Numbers<char>, c: Contract)
    ensures Material(h, c) == Name(KEYS[0]) + Rest(h, c, 0)
  {
    JoinIsRest(h, c, 0);
    assert Parts(h, c)[0..] == Parts(h, c);
    hide Parts, Rest, Name, Join;
  }

  // ---- which contracts can be mistaken ----

  /** The position before a boundary between two text fields: after the version and before the season. */
  predicate IsTextBoundary(i: nat) {
    1 < i < 10
  }

  /** The field before the boundary holds what ends it. */
  predicate HoldsBoundary(h: Numbers<char>, c: Contract, i: nat)
    requires IsTextBoundary(i)
  {
    Contains(Shown(h, c, i), Mark(i + 1))
  }

  /** The model key holds what ends it, a number, and what ends the number. */
  predicate HoldsVersion(h: Numbers<char>, c: Contract, n: Num) {
    HoldsDouble(h, Number(n)) && Contains(Shown(h, c, 0), Mark(1) + NumText(h, n) + Mark(2))
  }

  /** No field holds text that reads as its end. */
  ghost predicate Unmistakable(h: Numbers<char>, c: Contract) {
    && (forall i: nat :: IsTextBoundary(i) ==> !HoldsBoundary(h, c, i))
    && (forall n: Num :: !HoldsVersion(h, c, n))
  }

  /** Texts without the separator make a contract unmistakable. */
  lemma BarFreeIsUnmistakable(h: Numbers<char>, c: Contract)
    requires forall k :: Get(c, k).Text? ==> '|' !in Get(c, k).s
    ensures Unmistakable(h, c)
  {
    assert |KEYS| == 13 && KEYS[0] == ScoringModelKey;
    forall i: nat | IsTextBoundary(i)
      ensures !HoldsBoundary(h, c, i)
    {
      assert Get(c, KEYS[i]).Text? && '|' !in Shown(h, c, i);
      MarkShape(i + 1);
      HoldsNoMark(Shown(h, c, i), Mark(i + 1));
    }
    forall n: Num
      ensures !HoldsVersion(h, c, n)
    {
      assert Get(c, KEYS[0]).Text? && '|' !in Shown(h, c, 0);
      MarkShape(1);
      HoldsNoMark(Shown(h, c, 0), Mark(1) + NumText(h, n) + Mark(2));
    }
    hide Contains, Mark, Shown, NumText;
  }

  /** The last field of two equal texts, when it is free of bars. */
  lemma PeelLast(x: string, y: string, mark: string, p: string, q: string)
    requires mark != "" && mark[0] == '|' && '|' !in mark[1..] && '|' !in p && '|' !in q
    requires x + mark + p == y + mark + q
    ensures x == y && p == q
  {
    if |p| < |q| {
      NotShorter(x, y, mark, p, q);
    } else if |q| < |p| {
      NotShorter(y, x, mark, q, p);
    } else {
      var s := x + mark + p;
      assert s[..|x|] == x && s[..|y|] == y && s[|x| + |mark|..] == p && s[|y| + |mark|..] == q;
    }
  }

  lemma NotShorter(x: string, y: string, mark: string, p: string, q: string)
    requires mark != "" && mark[0] == '|' && '|' !in mark[1..] && '|' !in q
    requires x + mark + p == y + mark + q
    ensures |p| >= |q|
  {
    var s := y + mark + q;
    assert s[|x|] == '|' by {
      assert (x + mark + p)[|x|] == mark[0];
    }
    assert forall k :: |y| < k < |y| + |mark| ==> s[k] == mark[1..][k - |y| - 1];
    assert forall k :: |y| + |mark| <= k < |s| ==> s[k] == q[k - |y| - |mark|];
  }

  /** From the season on the fields are read from the right. */
  lemma SeasonRestInjective(h: Numbers<char>, c: Contract, d: Contract)
    requires PrintsNumerals(h) && HoldsDoubles(h, c) && HoldsDoubles(h, d)
    requires |KEYS| == 13 && Rest(h, c, 10) == Rest(h, d, 10)
    ensures forall i :: 10 <= i < |KEYS| ==> Shown(h, c, i) == Shown(h, d, i)
  {
    assert |KEYS| == 13 && KEYS[11] == ZoneId && KEYS[12] == Partition;
    assert !Get(c, KEYS[11]).Text? && !Get(c, KEYS[12]).Text? && !Get(d, KEYS[11]).Text? && !Get(d, KEYS[12]).Text?;
    ShownBarFree(h, c, 11);
    ShownBarFree(h, c, 12);
    ShownBarFree(h, d, 11);
    ShownBarFree(h, d, 12);
    MarkShape(11);
    MarkShape(12);
    SeasonRest(h, c);
    SeasonRest(h, d);
    hide *;
    var z, p := Shown(h, c, 11), Shown(h, c, 12);
    var z', p' := Shown(h, d, 11), Shown(h, d, 12);
    PeelLast(Shown(h, c, 10) + Mark(11) + z, Shown(h, d, 10) + Mark(11) + z', Mark(12), p, p');
    PeelLast(Shown(h, c, 10), Shown(h, d, 10), Mark(11), z, z');
  }

  lemma SeasonRest(h: Numbers<char>, c: Contract)
    ensures |KEYS| == 13
    ensures Rest(h, c, 10) == Shown(h, c, 10) + Mark(11) + Shown(h, c, 11) + Mark(12) + Shown(h, c, 12)
  {
    assert Rest(h, c, 12) == Shown(h, c, 12);
    assert Rest(h, c, 11) == Shown(h, c, 11) + Mark(12) + Shown(h, c, 12);
    assert Rest(h, c, 10) == Shown(h, c, 10) + Mark(11) + Rest(h, c, 11);
    hide Shown, Mark, Rest;
    FiveParts(Shown(h, c, 10), Mark(11), Shown(h, c, 11), Mark(12), Shown(h, c, 12));
  }

  lemma FiveParts(a: string, b: string, c: string, d: string, e: string)
    ensures a + b + (c + d + e) == a + b + c + d + e
  {
  }

  lemma FieldInjective(h: Numbers<char>, c: Contract, d: Contract, i: nat)
    requires PrintsNumerals(h) && HoldsDoubles(h, c) && HoldsDoubles(h, d) && Unmistakable(h, c) && Unmistakable(h, d)
    requires 1 <= i < 10 && |KEYS| == 13 && Rest(h, c, i) == Rest(h, d, i)
    ensures Shown(h, c, i) == Shown(h, d, i) && Rest(h, c, i + 1) == Rest(h, d, i + 1)
  {
    hide *;
    MarkShape(i + 1);
    NoMarkInside(h, c, i);
    NoMarkInside(h, d, i);
    RestParts(h, c, i);
    RestParts(h, d, i);
    MarkSplits(Shown(h, c, i), Shown(h, d, i), Mark(i + 1), Rest(h, c, i + 1), Rest(h, d, i + 1));
  }

  lemma {:induction false} RestInjective(h: Numbers<char>, c: Contract, d: Contract, i: nat)
    requires PrintsNumerals(h) && HoldsDoubles(h, c) && HoldsDoubles(h, d) && Unmistakable(h, c) && Unmistakable(h, d)
    requires 1 <= i <= 10 && |KEYS| == 13 && Rest(h, c, i) == Rest(h, d, i)
    ensures forall k :: i <= k < |KEYS| ==> Shown(h, c, k) == Shown(h, d, k)
    decreases 10 - i
  {
    hide *;
    if i == 10 {
      SeasonRestInjective(h, c, d);
    } else {
      FieldInjective(h, c, d, i);
      RestInjective(h, c, d, i + 1);
    }
  }

  lemma RestParts(h: Numbers<char>, c: Contract, i: nat)
    requires i < |KEYS| - 1
    ensures Rest(h, c, i) == Shown(h, c, i) + Mark(i + 1) + Rest(h, c, i + 1)
  {
    hide Shown, Mark;
  }

  lemma NoMarkInside(h: Numbers<char>, c: Contract, i: nat)
    requires PrintsNumerals(h) && HoldsDoubles(h, c) && Unmistakable(h, c) && 1 <= i < 10 && |KEYS| == 13
    ensures !Contains(Shown(h, c, i), Mark(i + 1))
  {
    assert KEYS[1] == ScoringModelVersion;
    hide Shown, Mark, Contains, KEYS;
    if i == 1 {
      ShownBarFree(h, c, 1);
      MarkShape(2);
      HoldsNoMark(Shown(h, c, 1), Mark(2));
    } else {
      assert IsTextBoundary(i) && !HoldsBoundary(h, c, i);
    }
  }

  /** If a number and its end are also a part that another mark ends, that part begins with the number and its end. */
  lemma NumberInside(p: string, mark: string, r: string, y: string, other: string, r': string)
    requires '|' !in p && |mark| > 1 && |other| > 1 && mark[0] == '|' && other[0] == '|' && '|' !in mark[1..]
    requires mark[1] != other[1] && p + mark + r == y + other + r'
    ensures p + mark <= y
  {
    var s := p + mark + r;
    assert s == y + other + r' && s[|y|] == '|' && s[|y| + 1] == other[1];
    assert forall k :: 0 <= k < |p| ==> s[k] == p[k];
    assert forall k :: 0 <= k < |mark| ==> s[|p| + k] == mark[k];
    assert forall k :: 0 < k < |mark| ==> mark[k] == mark[1..][k - 1];
    assert |y| >= |p| + |mark|;
    assert y == s[..|y|] && p + mark == s[..|p| + |mark|];
  }

  lemma VersionMarksDiffer()
    ensures |Mark(1)| > 1 && |Mark(2)| > 1 && Mark(1)[1] == 's' && Mark(2)[1] == 'o'
  {
    assert Name(ScoringModelVersion)[0] == 's' && Name(ObservationSchemaVersion)[0] == 'o';
  }

  lemma ModelKeysEqual(h: Numbers<char>, c: Contract, d: Contract)
    requires PrintsNumerals(h) && HoldsDoubles(h, c) && |KEYS| == 13
    requires Unmistakable(h, d) && Rest(h, c, 0) == Rest(h, d, 0)
    ensures |Shown(h, c, 0)| >= |Shown(h, d, 0)|
  {
    var u, v, p := Shown(h, c, 0), Shown(h, d, 0), Shown(h, c, 1);
    if |u| < |v| {
      MarkShape(1);
      MarkShape(2);
      RestParts(h, c, 0);
      RestParts(h, c, 1);
      RestParts(h, d, 0);
      assert KEYS[1] == ScoringModelVersion;
      ShownBarFree(h, c, 1);
      VersionMarksDiffer();
      var n := c.scoringModelVersion;
      assert p == NumText(h, n);
      assert HoldsDouble(h, Get(c, ScoringModelVersion));
      assert Get(c, ScoringModelVersion) == Number(n);
      assert !HoldsVersion(h, d, n);
      hide Rest, Mark, Shown, Get, NumText, Unmistakable, PrintsNumerals, HoldsDoubles, Contains;
      LongerHoldsNumber(u, v, Mark(1), p, Mark(2), Rest(h, c, 2), Rest(h, d, 1));
    }
  }

  lemma LongerHoldsNumber(u: string, v: string, mark: string, p: string, next: string, r: string, r': string)
    requires mark != "" && mark[0] == '|' && '|' !in mark[1..] && '|' !in p
    requires |mark| > 1 && |next| > 1 && next[0] == '|' && '|' !in next[1..] && next[1] != mark[1]
    requires u + mark + (p + next + r) == v + mark + r' && |u| < |v|
    ensures Contains(v, mark + p + next)
  {
    hide *;
    MarkNotInside(u, v, mark, p + next + r, r');
    var y := v[|u| + |mark|..];
    Uncut(u + mark, v);
    ThreeParts(v, mark, r');
    CutFront(u + mark, p + next + r, y, mark + r', v);
    ThreeParts(y, mark, r');
    NumberInside(p, next, r, y, mark, r');
    Begins(u, mark, p, next, y, v);
    ContainsAt(v, mark + p + next, |u|);
  }

  lemma Uncut(f: string, v: string)
    requires |f| <= |v| && v[..|f|] == f
    ensures v == f + v[|f|..]
  {
  }

  lemma CutFront(f: string, x: string, y: string, z: string, v: string)
    requires v == f + y && f + x == v + z
    ensures x == y + z
  {
    assert (f + x)[|f|..] == x && (f + y + z)[|f|..] == y + z;
  }

  lemma Begins(u: string, mark: string, p: string, next: string, y: string, v: string)
    requires v == u + mark + y && p + next <= y
    ensures mark + p + next <= v[|u|..]
  {
    assert v[|u|..] == mark + y;
    assert y == p + next + y[|p| + |next|..];
  }

  /** Unmistakable contracts are told apart by their materials, missing numbers from present ones included. */
  lemma MaterialInjective(h: Numbers<char>, c: Contract, d: Contract)
    requires PrintsNumerals(h) && HoldsDoubles(h, c) && HoldsDoubles(h, d) && Unmistakable(h, c) && Unmistakable(h, d)
    ensures Material(h, c) == Material(h, d) <==> c == d
  {
    hide *;
    if Material(h, c) == Material(h, d) {
      ShowsModel(h, c);
      MaterialIsRest(h, c);
      MaterialIsRest(h, d);
      SamePrefix(Name(KEYS[0]), Rest(h, c, 0), Rest(h, d, 0));
      ModelKeysEqual(h, c, d);
      ModelKeysEqual(h, d, c);
      RestParts(h, c, 0);
      RestParts(h, d, 0);
      SameLength(Shown(h, c, 0), Shown(h, d, 0), Mark(1), Rest(h, c, 1), Rest(h, d, 1));
      RestInjective(h, c, d, 1);
      SameShown(h, c, d);
    }
  }

  lemma SameShown(h: Numbers<char>, c: Contract, d: Contract)
    requires PrintsNumerals(h) && HoldsDoubles(h, c) && HoldsDoubles(h, d)
    requires forall k :: 0 <= k < |KEYS| ==> Shown(h, c, k) == Shown(h, d, k)
    ensures c == d
  {
    hide *;
    forall k ensures Get(c, k) == Get(d, k) {
      var i := KeyListed(k);
      ShownIs(h, c, i);
      ShownIs(h, d, i);
      ShowExact(h, c, d, k);
    }
    SameFields(c, d);
  }

  lemma ShownIs(h: Numbers<char>, c: Contract, i: nat)
    requires i < |KEYS|
    ensures Shown(h, c, i) == Show(h, KEYS[i], Get(c, KEYS[i]))
  {
    hide Show, Get;
  }

  lemma SamePrefix(p: string, a: string, b: string)
    requires p + a == p + b
    ensures a == b
  {
    assert (p + a)[|p|..] == a && (p + b)[|p|..] == b;
  }

  lemma SameLength(u: string, v: string, mark: string, x: string, y: string)
    requires |u| == |v| && u + mark + x == v + mark + y
    ensures u == v && x == y
  {
    var s := u + mark + x;
    assert s[..|u|] == u && s[..|v|] == v && s[|u| + |mark|..] == x && s[|v| + |mark|..] == y;
  }

  // ---- mistakable contracts really are mistaken ----

  /** The contract with another text in the text field at position `i`. */
  function WithText(c: Contract, i: nat, s: string): Contract
    requires i < |KEYS|
  {
    match KEYS[i]
    case ScoringModelKey => c.(scoringModelKey := s)
    case ObservationSchemaVersion => c.(observationSchemaVersion := s)
    case WclAdapterVersion => c.(wclAdapterVersion := s)
    case BlizzardAdapterVersion => c.(blizzardAdapterVersion := s)
    case RaiderIoAdapterVersion => c.(raiderIoAdapterVersion := s)
    case RunSelectionVersion => c.(runSelectionVersion := s)
    case AbilityCatalogVersion => c.(abilityCatalogVersion := s)
    case AbilityCatalogExecutionKey => c.(abilityCatalogExecutionKey := s)
    case MechanicCatalogVersion => c.(mechanicCatalogVersion := s)
    case ActiveSeasonId => c.(activeSeasonId := s)
    case _ => c
  }

  lemma WithTextGets(c: Contract, i: nat, s: string, k: nat)
    requires i < |KEYS| && k < |KEYS| && Get(c, KEYS[i]).Text?
    ensures Get(WithText(c, i, s), KEYS[k]) == if k == i then Text(s) else Get(c, KEYS[k])
  {
  }

  lemma WithTextShows(h: Numbers<char>, c: Contract, i: nat, s: string, k: nat)
    requires i < |KEYS| && k < |KEYS| && Get(c, KEYS[i]).Text?
    ensures Shown(h, WithText(c, i, s), k) == if k == i then s else Shown(h, c, k)
    ensures Get(WithText(c, i, s), KEYS[k]).Text? <==> Get(c, KEYS[k]).Text?
  {
    WithTextGets(c, i, s, k);
    hide Get, WithText;
  }

  lemma SameRest(h: Numbers<char>, c: Contract, d: Contract, i: nat)
    requires i < |KEYS| && forall k :: i <= k < |KEYS| ==> Shown(h, c, k) == Shown(h, d, k)
    ensures Rest(h, c, i) == Rest(h, d, i)
    decreases |KEYS| - i
  {
    if i < |KEYS| - 1 {
      SameRest(h, c, d, i + 1);
    }
    hide Shown, Mark;
  }

  /** Equal from some position on, and equal fields before it: equal materials. */
  lemma {:induction false} SameMaterial(h: Numbers<char>, c: Contract, d: Contract, i: nat)
    requires i < |KEYS| && Rest(h, c, i) == Rest(h, d, i)
    requires forall k :: 0 <= k < i ==> Shown(h, c, k) == Shown(h, d, k)
    ensures Material(h, c) == Material(h, d)
  {
    hide *;
    if i == 0 {
      MaterialIsRest(h, c);
      MaterialIsRest(h, d);
    } else {
      RestParts(h, c, i - 1);
      RestParts(h, d, i - 1);
      SameMaterial(h, c, d, i - 1);
    }
  }

  lemma KeepsDoubles(h: Numbers<char>, c: Contract, i: nat, s: string)
    requires i < |KEYS| && HoldsDoubles(h, c) && Get(c, KEYS[i]).Text?
    ensures HoldsDoubles(h, WithText(c, i, s))
  {
    forall k
      ensures HoldsDouble(h, Get(WithText(c, i, s), k))
    {
      var j := KeyListed(k);
      WithTextGets(c, i, s, j);
      assert HoldsDouble(h, Get(c, k));
    }
    hide Get, WithText;
  }

  /** The contract with other texts on both sides of a boundary. */
  lemma WithTexts(h: Numbers<char>, c: Contract, i: nat, a: string, moved: string) returns (d: Contract)
    requires IsTextBoundary(i) && |KEYS| == 13 && HoldsDoubles(h, c)
    ensures HoldsDoubles(h, d) && Shown(h, d, i) == a && Shown(h, d, i + 1) == moved
    ensures forall k :: 0 <= k < |KEYS| && k != i && k != i + 1 ==> Shown(h, d, k) == Shown(h, c, k)
  {
    assert Get(c, KEYS[i]).Text? && Get(c, KEYS[i + 1]).Text?;
    hide Get, WithText, Shown, HoldsDoubles;
    var one := WithText(c, i, a);
    d := WithText(one, i + 1, moved);
    WithTextShows(h, c, i, a, i + 1);
    forall k | 0 <= k < |KEYS|
      ensures Shown(h, d, k) == if k == i then a else if k == i + 1 then moved else Shown(h, c, k)
    {
      WithTextShows(h, c, i, a, k);
      WithTextShows(h, one, i + 1, moved, k);
    }
    KeepsDoubles(h, c, i, a);
    KeepsDoubles(h, one, i + 1, moved);
  }

  /** The boundary between two text fields can move to any place that reads like it, for all texts. */
  lemma BoundaryMoves(h: Numbers<char>, c: Contract, i: nat, a: string, b: string) returns (d: Contract)
    requires IsTextBoundary(i) && |KEYS| == 13 && HoldsDoubles(h, c) && Shown(h, c, i) == a + Mark(i + 1) + b
    ensures Material(h, d) == Material(h, c) && d != c && HoldsDoubles(h, d)
    ensures Shown(h, d, i) == a && Shown(h, d, i + 1) == b + Mark(i + 1) + Shown(h, c, i + 1)
  {
    assert 1 < i < 10;
    hide *;
    MarkShape(i + 1);
    ShortensText(a, Mark(i + 1), b);
    d := WithTexts(h, c, i, a, b + Mark(i + 1) + Shown(h, c, i + 1));
    MovedRest(h, c, d, i, a, b);
    SameMaterial(h, c, d, i);
  }

  lemma ShortensText(a: string, m: string, b: string)
    requires m != ""
    ensures |a| < |a + m + b|
  {
  }

  lemma RestPair(h: Numbers<char>, c: Contract, i: nat)
    requires i < |KEYS| - 2
    ensures Rest(h, c, i) == Shown(h, c, i) + Mark(i + 1) + (Shown(h, c, i + 1) + (Mark(i + 2) + Rest(h, c, i + 2)))
  {
    RestParts(h, c, i);
    RestParts(h, c, i + 1);
    hide *;
    ThreeParts(Shown(h, c, i + 1), Mark(i + 2), Rest(h, c, i + 2));
  }

  lemma ThreeParts(a: string, b: string, c: string)
    ensures a + b + c == a + (b + c)
  {
  }

  lemma MovedRest(h: Numbers<char>, c: Contract, d: Contract, i: nat, a: string, b: string)
    requires 1 < i < 10 && |KEYS| == 13 && Shown(h, c, i) == a + Mark(i + 1) + b && Shown(h, d, i) == a
    requires Shown(h, d, i + 1) == b + Mark(i + 1) + Shown(h, c, i + 1)
    requires forall k :: i + 2 <= k < |KEYS| ==> Shown(h, d, k) == Shown(h, c, k)
    ensures Rest(h, c, i) == Rest(h, d, i)
  {
    hide *;
    SameRest(h, c, d, i + 2);
    RestPair(h, c, i);
    RestPair(h, d, i);
    MoveMark(a, Mark(i + 1), b, Shown(h, c, i + 1), Mark(i + 2) + Rest(h, c, i + 2));
  }

  lemma MoveMark(a: string, mark: string, b: string, v: string, r: string)
    ensures (a + mark + b) + mark + (v + r) == a + mark + ((b + mark + v) + r)
  {
  }

  lemma RestTriple(h: Numbers<char>, c: Contract)
    requires |KEYS| == 13
    ensures Rest(h, c, 0) == Shown(h, c, 0) + Mark(1)
                             + (Shown(h, c, 1) + Mark(2) + (Shown(h, c, 2) + (Mark(3) + Rest(h, c, 3))))
  {
    hide *;
    RestParts(h, c, 0);
    RestPair(h, c, 1);
  }

  lemma ShortensKey(a: string, m: string, n: string, k: string, b: string)
    requires m != ""
    ensures |a| < |a + (m + n + k) + b|
  {
  }

  lemma ShowsModel(h: Numbers<char>, c: Contract)
    ensures |KEYS| == 13 && Shown(h, c, 0) == c.scoringModelKey
    ensures Shown(h, c, 1) == NumText(h, c.scoringModelVersion) && Shown(h, c, 2) == c.observationSchemaVersion
  {
    hide NumText;
  }

  /** `d` differs from `c` in the first three fields at most. */
  predicate SameAfterModel(c: Contract, d: Contract) {
    d == c.(scoringModelKey := d.scoringModelKey, scoringModelVersion := d.scoringModelVersion,
            observationSchemaVersion := d.observationSchemaVersion)
  }

  lemma ShowsSameAfter(h: Numbers<char>, c: Contract, d: Contract)
    requires SameAfterModel(c, d)
    ensures forall k :: 3 <= k < |KEYS| ==> Shown(h, d, k) == Shown(h, c, k)
  {
    forall k | 3 <= k < |KEYS|
      ensures Shown(h, d, k) == Shown(h, c, k)
    {
      assert Get(d, KEYS[k]) == Get(c, KEYS[k]);
    }
  }

  lemma HoldsSameDoubles(h: Numbers<char>, c: Contract, d: Contract)
    requires SameAfterModel(c, d) && HoldsDoubles(h, c) && HoldsDouble(h, Number(d.scoringModelVersion))
    ensures HoldsDoubles(h, d)
  {
    forall k
      ensures HoldsDouble(h, Get(d, k))
    {
      assert HoldsDouble(h, Get(c, k));
    }
  }

  lemma MovedVersionRest(h: Numbers<char>, c: Contract, d: Contract, a: string, n: string, b: string)
    requires |KEYS| == 13 && Shown(h, c, 0) == a + (Mark(1) + n + Mark(2)) + b
    requires Shown(h, d, 0) == a && Shown(h, d, 1) == n
    requires Shown(h, d, 2) == b + Mark(1) + Shown(h, c, 1) + Mark(2) + Shown(h, c, 2)
    requires forall k :: 3 <= k < |KEYS| ==> Shown(h, d, k) == Shown(h, c, k)
    ensures Rest(h, c, 0) == Rest(h, d, 0)
  {
    hide *;
    SameRest(h, c, d, 3);
    RestTriple(h, c);
    RestTriple(h, d);
    MoveVersion(a, Mark(1), n, Mark(2), b, Shown(h, c, 1), Shown(h, c, 2), Mark(3) + Rest(h, c, 3));
  }

  /** Likewise the model key, where it holds a version number between the marks of the version. */
  lemma VersionMoves(h: Numbers<char>, c: Contract, n: Num, a: string, b: string) returns (d: Contract)
    requires |KEYS| == 13 && HoldsDoubles(h, c) && HoldsDouble(h, Number(n))
    requires c.scoringModelKey == a + (Mark(1) + NumText(h, n) + Mark(2)) + b
    ensures Material(h, d) == Material(h, c) && d != c && HoldsDoubles(h, d)
  {
    hide *;
    var moved := b + Mark(1) + NumText(h, c.scoringModelVersion) + Mark(2) + c.observationSchemaVersion;
    d := WithModel(c, a, n, moved);
    WithModelIsSame(c, a, n, moved);
    MarkShape(1);
    ShortensKey(a, Mark(1), NumText(h, n), Mark(2), b);
    ShowsModel(h, c);
    ShowsModel(h, d);
    ShowsSameAfter(h, c, d);
    HoldsSameDoubles(h, c, d);
    MovedVersionRest(h, c, d, a, NumText(h, n), b);
    SameMaterial(h, c, d, 0);
  }

  function WithModel(c: Contract, key: string, version: Num, observation: string): Contract {
    c.(scoringModelKey := key, scoringModelVersion := version, observationSchemaVersion := observation)
  }

  lemma WithModelIsSame(c: Contract, key: string, version: Num, observation: string)
    ensures var d := WithModel(c, key, version, observation);
      SameAfterModel(c, d) && d.scoringModelKey == key && d.scoringModelVersion == version
      && d.observationSchemaVersion == observation
  {
  }

  lemma MoveVersion(a: string, m: string, n: string, k: string, b: string, v: string, o: string, r: string)
    ensures (a + (m + n + k) + b) + m + (v + k + (o + r)) == a + m + (n + k + ((b + m + v + k + o) + r))
  {
  }

  /** A contract that is not unmistakable shares its material with another one. */
  lemma MistakableCollides(h: Numbers<char>, c: Contract) returns (d: Contract)
    requires HoldsDoubles(h, c) && !Unmistakable(h, c)
    ensures Material(h, d) == Material(h, c) && d != c && HoldsDoubles(h, d)
  {
    assert |KEYS| == 13 && KEYS[0] == ScoringModelKey;
    if i: nat :| IsTextBoundary(i) && HoldsBoundary(h, c, i) {
      var a, b := ContainsSplit(Shown(h, c, i), Mark(i + 1));
      hide Shown, Mark, Material, HoldsDoubles;
      d := BoundaryMoves(h, c, i, a, b);
    } else {
      var n: Num :| HoldsVersion(h, c, n);
      assert Shown(h, c, 0) == c.scoringModelKey;
      var a, b := ContainsSplit(Shown(h, c, 0), Mark(1) + NumText(h, n) + Mark(2));
      hide Shown, Mark, Material, HoldsDoubles, NumText;
      d := VersionMoves(h, c, n, a, b);
    }
  }
}
