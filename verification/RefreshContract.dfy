/** Stored refresh contracts and their comparison with the current one (packages/contracts/src/refresh-contract.ts). */
module RefreshContract {
  import opened Wrappers
  import opened JsHost
  import opened ContractMaterial

  // ---- stored contracts ----

  /** A stored property: missing or null, a string, a number, or something else. */
  datatype Raw = Nullish | RawText(s: string) | RawNumber(n: Num) | RawOther

  /** A stored value of unknown type; a property that is not listed is missing. */
  datatype Stored = NotObject | Row(fields: map<Key, Raw>)

  function Field(fields: map<Key, Raw>, k: Key): Raw {
    if k in fields then fields[k] else Nullish
  }

  function NumberOrNone(v: Raw): Option<Num> {
    if v.RawNumber? then Some(v.n) else None
  }

  /** `parseRefreshContract`. */
  function Parse(stored: Stored): Option<Contract> {
    if stored.NotObject? then None
    else
      var f := stored.fields;
      var key, version := Field(f, ScoringModelKey), Field(f, ScoringModelVersion);
      if !key.RawText? then None
      else if !version.RawNumber? || !version.n.Finite? then None
      else
        var observation, wcl, blizzard := Field(f, ObservationSchemaVersion), Field(f, WclAdapterVersion),
          Field(f, BlizzardAdapterVersion);
        var raider, selection, abilities := Field(f, RaiderIoAdapterVersion), Field(f, RunSelectionVersion),
          Field(f, AbilityCatalogVersion);
        var mechanics, season := Field(f, MechanicCatalogVersion), Field(f, ActiveSeasonId);
        if !observation.RawText? || !wcl.RawText? || !blizzard.RawText? || !raider.RawText? || !selection.RawText?
          || !abilities.RawText? || !mechanics.RawText? || !season.RawText? then None
        else
          var zone, partition := Field(f, ZoneId), Field(f, Partition);
          if !zone.Nullish? && NumberOrNone(zone).None? then None
          else if !partition.Nullish? && NumberOrNone(partition).None? then None
          else
            var execution := Field(f, AbilityCatalogExecutionKey);
            var executionKey :=
              if execution.RawText? && |execution.s| > 0 then execution.s else "static:" + abilities.s;
            Some(Contract(key.s, version.n, observation.s, wcl.s, blizzard.s, raider.s, selection.s, abilities.s,
                          executionKey, mechanics.s, season.s, NumberOrNone(zone), NumberOrNone(partition)))
  }

  function Store(v: Value): Raw {
    match v
    case Text(s) => RawText(s)
    case Number(n) => RawNumber(n)
    case Null => Nullish
  }

  /** The stored form of a contract. */
  function RowOf(c: Contract): Stored {
    Row(map k | k in KEYS :: Store(Get(c, k)))
  }

  lemma FieldOfRow(c: Contract, k: Key)
    ensures Field(RowOf(c).fields, k) == Store(Get(c, k))
  {
    var i := KeyListed(k);
    hide Get;
  }

  lemma FieldsOfRow(c: Contract)
    ensures forall k :: Field(RowOf(c).fields, k) == Store(Get(c, k))
  {
    forall k ensures Field(RowOf(c).fields, k) == Store(Get(c, k)) {
      FieldOfRow(c, k);
    }
  }

  /** Reading a row that stores a contract, but for its execution key. */
  lemma ParseByFields(f: map<Key, Raw>, c: Contract)
    requires forall k :: k != AbilityCatalogExecutionKey ==> Field(f, k) == Store(Get(c, k))
    ensures var execution := Field(f, AbilityCatalogExecutionKey);
      Parse(Row(f)) ==
      if !c.scoringModelVersion.Finite? then None
      else Some(c.(abilityCatalogExecutionKey :=
                     if execution.RawText? && |execution.s| > 0 then execution.s
                       else "static:" + c.abilityCatalogVersion))
  {
    hide Field;
    assert Field(f, ScoringModelKey) == RawText(c.scoringModelKey);
    assert Field(f, ScoringModelVersion) == RawNumber(c.scoringModelVersion);
    assert Field(f, ObservationSchemaVersion) == RawText(c.observationSchemaVersion);
    assert Field(f, WclAdapterVersion) == RawText(c.wclAdapterVersion);
    assert Field(f, BlizzardAdapterVersion) == RawText(c.blizzardAdapterVersion);
    assert Field(f, RaiderIoAdapterVersion) == RawText(c.raiderIoAdapterVersion);
    assert Field(f, RunSelectionVersion) == RawText(c.runSelectionVersion);
    assert Field(f, AbilityCatalogVersion) == RawText(c.abilityCatalogVersion);
    assert Field(f, MechanicCatalogVersion) == RawText(c.mechanicCatalogVersion);
    assert Field(f, ActiveSeasonId) == RawText(c.activeSeasonId);
    assert Field(f, ZoneId) == Store(Nullable(c.zoneId)) && Field(f, Partition) == Store(Nullable(c.partition));
    hide Get;
  }

  /** A stored contract reads back exactly when its model version is finite and its execution key is not empty. */
  lemma ParseInvertsStore(c: Contract)
    ensures Parse(RowOf(c)) == Some(c) <==> c.scoringModelVersion.Finite? && c.abilityCatalogExecutionKey != ""
  {
    FieldsOfRow(c);
    ParseByFields(RowOf(c).fields, c);
    assert |"static:" + c.abilityCatalogVersion| >= 7;
    assert Store(Get(c, AbilityCatalogExecutionKey)) == RawText(c.abilityCatalogExecutionKey);
    hide Field, Parse, KEYS, Get;
  }

  /** A contract from before the execution key reads as the one with the static key of its ability catalog. */
  lemma LegacyContractIsStatic(c: Contract, legacy: Stored)
    requires legacy == Row(RowOf(c).fields - {AbilityCatalogExecutionKey})
    requires c.scoringModelVersion.Finite? && c.abilityCatalogExecutionKey == "static:" + c.abilityCatalogVersion
    ensures Parse(legacy) == Some(c)
  {
    hide Parse, Get;
    FieldsOfRow(c);
    assert Field(legacy.fields, AbilityCatalogExecutionKey) == Nullish;
    forall k | k != AbilityCatalogExecutionKey ensures Field(legacy.fields, k) == Store(Get(c, k)) {
      assert Field(legacy.fields, k) == Field(RowOf(c).fields, k);
    }
    hide Field;
    ParseByFields(legacy.fields, c);
  }

  // ---- comparison ----

  /** `isRefreshContractCompatible`: the hashes of the materials agree. */
  predicate Compatible(h: Numbers<char>, hash: string -> string, stored: Stored, current: Contract) {
    var parsed := Parse(stored);
    parsed.Some? && hash(Material(h, parsed.value)) == hash(Material(h, current))
  }

  datatype Reason =
    | SCORING_MODEL_CHANGED | OBSERVATION_SCHEMA_CHANGED | WCL_ADAPTER_CHANGED | BLIZZARD_ADAPTER_CHANGED
    | RAIDERIO_ADAPTER_CHANGED | RUN_SELECTION_CHANGED | ABILITY_CATALOG_CHANGED | MECHANIC_CATALOG_CHANGED
    | ACTIVE_SEASON_CHANGED | ZONE_OR_PARTITION_CHANGED | CONTRACT_MISSING

  /** The reason a field stands for. */
  function FieldReason(k: Key): Reason {
    match k
    case ScoringModelKey => SCORING_MODEL_CHANGED
    case ScoringModelVersion => SCORING_MODEL_CHANGED
    case ObservationSchemaVersion => OBSERVATION_SCHEMA_CHANGED
    case WclAdapterVersion => WCL_ADAPTER_CHANGED
    case BlizzardAdapterVersion => BLIZZARD_ADAPTER_CHANGED
    case RaiderIoAdapterVersion => RAIDERIO_ADAPTER_CHANGED
    case RunSelectionVersion => RUN_SELECTION_CHANGED
    case AbilityCatalogVersion => ABILITY_CATALOG_CHANGED
    case AbilityCatalogExecutionKey => ABILITY_CATALOG_CHANGED
    case MechanicCatalogVersion => MECHANIC_CATALOG_CHANGED
    case ActiveSeasonId => ACTIVE_SEASON_CHANGED
    case ZoneId => ZONE_OR_PARTITION_CHANGED
    case Partition => ZONE_OR_PARTITION_CHANGED
  }

  /** `!==`: NaN differs from itself. */
  predicate Differs(c: Contract, d: Contract, k: Key) {
    Get(c, k) != Get(d, k) || Get(c, k) == Number(NaN)
  }

  /** The position of a reason in the table of fields. */
  function Rank(r: Reason): nat {
    match r
    case SCORING_MODEL_CHANGED => 0
    case OBSERVATION_SCHEMA_CHANGED => 2
    case WCL_ADAPTER_CHANGED => 3
    case BLIZZARD_ADAPTER_CHANGED => 4
    case RAIDERIO_ADAPTER_CHANGED => 5
    case RUN_SELECTION_CHANGED => 6
    case ABILITY_CATALOG_CHANGED => 7
    case MECHANIC_CATALOG_CHANGED => 9
    case ACTIVE_SEASON_CHANGED => 10
    case ZONE_OR_PARTITION_CHANGED => 11
    case CONTRACT_MISSING => 13
  }

  predicate Ascending(reasons: seq<Reason>) {
    forall i, j :: 0 <= i < j < |reasons| ==> Rank(reasons[i]) < Rank(reasons[j])
  }

  /** The reasons of the fields before the `n`th that differ, each once, in the order of the table. */
  predicate ReasonsBefore(c: Contract, d: Contract, n: nat, reasons: seq<Reason>)
    requires n <= |KEYS|
  {
    && Ascending(reasons)
    && (forall i :: 0 <= i < n && Differs(c, d, KEYS[i]) ==> FieldReason(KEYS[i]) in reasons)
    && (forall r :: r in reasons ==> exists i :: 0 <= i < n && Differs(c, d, KEYS[i]) && FieldReason(KEYS[i]) == r)
  }

  /** What `refreshContractStaleReasons` reports. */
  predicate AreStaleReasons(stored: Stored, current: Contract, reasons: seq<Reason>) {
    var parsed := Parse(stored);
    if parsed.None? then reasons == [CONTRACT_MISSING]
    else ReasonsBefore(parsed.value, current, |KEYS|, reasons)
  }

  lemma RankOfField(i: nat)
    requires i < |KEYS|
    ensures Rank(FieldReason(KEYS[i])) <= i
    ensures forall j :: 0 <= j < i ==> Rank(FieldReason(KEYS[j])) <= Rank(FieldReason(KEYS[i]))
    ensures forall r :: Rank(r) == Rank(FieldReason(KEYS[i])) ==> r == FieldReason(KEYS[i])
  {
  }

  lemma ReasonKept(c: Contract, d: Contract, i: nat, reasons: seq<Reason>)
    requires i < |KEYS| && ReasonsBefore(c, d, i, reasons)
    ensures var reason := FieldReason(KEYS[i]);
      ReasonsBefore(c, d, i + 1, if Differs(c, d, KEYS[i]) && reason !in reasons then reasons + [reason] else reasons)
  {
    hide Differs, FieldReason, Rank, KEYS;
    var reason := FieldReason(KEYS[i]);
    RankOfField(i);
    if Differs(c, d, KEYS[i]) && reason !in reasons {
      forall r | r in reasons ensures Rank(r) < Rank(reason) {
        var j :| 0 <= j < i && Differs(c, d, KEYS[j]) && FieldReason(KEYS[j]) == r;
        RankOfField(j);
      }
      var longer := reasons + [reason];
      forall r | r in longer ensures exists j :: 0 <= j < i + 1 && Differs(c, d, KEYS[j]) && FieldReason(KEYS[j]) == r {
        if r in reasons {
          var j :| 0 <= j < i && Differs(c, d, KEYS[j]) && FieldReason(KEYS[j]) == r;
          assert j < i + 1;
        }
      }
    }
  }

  method RefreshContractStaleReasons(stored: Stored, current: Contract) returns (reasons: seq<Reason>)
    ensures AreStaleReasons(stored, current, reasons)
  {
    var parsed := Parse(stored);
    if parsed.None? {
      return [CONTRACT_MISSING];
    }
    reasons := [];
    var seen: set<Reason> := {};
    assert ReasonsBefore(parsed.value, current, 0, reasons);
    hide Parse, Differs, FieldReason, Rank, ReasonsBefore;
    for i := 0 to |KEYS|
      invariant forall r :: r in seen <==> r in reasons
      invariant ReasonsBefore(parsed.value, current, i, reasons)
    {
      ReasonKept(parsed.value, current, i, reasons);
      var reason := FieldReason(KEYS[i]);
      if Differs(parsed.value, current, KEYS[i]) && reason !in seen {
        seen := seen + {reason};
        reasons := reasons + [reason];
      }
    }
  }

  /** A numeric field that is NaN. */
  predicate HoldsNaN(c: Contract) {
    c.scoringModelVersion.NaN? || c.zoneId == Some(NaN) || c.partition == Some(NaN)
  }

  lemma NoReasonsExactly(stored: Stored, current: Contract, reasons: seq<Reason>)
    requires AreStaleReasons(stored, current, reasons)
    ensures reasons == [] <==> Parse(stored) == Some(current) && !HoldsNaN(current)
  {
    hide Parse, FieldReason, Rank;
    var parsed := Parse(stored);
    if parsed.Some? {
      var p := parsed.value;
      if reasons == [] {
        forall k ensures Get(p, k) == Get(current, k) && !Differs(p, current, k) {
          var i := KeyListed(k);
          assert Differs(p, current, k) ==> reasons != [];
        }
        SameFields(p, current);
        assert !Differs(p, current, ScoringModelVersion) && !Differs(p, current, ZoneId) &&
          !Differs(p, current, Partition);
      } else {
        assert reasons[0] in reasons;
        var i :| 0 <= i < |KEYS| && Differs(p, current, KEYS[i]);
      }
    }
  }

  /** No reasons means compatible, whatever the strings and the hash. */
  lemma NoReasonsMeansCompatible(h: Numbers<char>, hash: string -> string, stored: Stored, current: Contract,
                                 reasons: seq<Reason>)
    requires AreStaleReasons(stored, current, reasons) && reasons == []
    ensures Compatible(h, hash, stored, current)
  {
    NoReasonsExactly(stored, current, reasons);
    hide AreStaleReasons, Parse, Material;
  }

  /**
    For unmistakable contracts and a hash without a collision on the two materials, the reasons are empty exactly
    when the contracts are compatible and the current one holds no NaN, which prints alike but differs from itself.
   */
  lemma NoReasonsExactlyWhenCompatible(h: Numbers<char>, hash: string -> string, stored: Stored, current: Contract,
                                       reasons: seq<Reason>)
    requires AreStaleReasons(stored, current, reasons)
    requires PrintsNumerals(h) && HoldsDoubles(h, current) && Unmistakable(h, current)
    requires Parse(stored).Some? ==>
      var parsed := Parse(stored).value;
      && HoldsDoubles(h, parsed) && Unmistakable(h, parsed)
      && (hash(Material(h, parsed)) == hash(Material(h, current)) ==> Material(h, parsed) == Material(h, current))
    ensures reasons == [] <==> Compatible(h, hash, stored, current) && !HoldsNaN(current)
  {
    NoReasonsExactly(stored, current, reasons);
    hide AreStaleReasons, Parse, Material, PrintsNumerals, HoldsDoubles, Unmistakable, HoldsNaN;
    var parsed := Parse(stored);
    if parsed.Some? {
      MaterialInjective(h, parsed.value, current);
    }
  }
}
