/** The persisted V2 performance aggregate: its validator, its database columns, and the way back. */
module PerformanceAggregate {
  import opened Wrappers
  import opened JsHost
  import opened DungeonRows

  const RANKING_VERSION: string := "role-aware-throughput-v2"
  const METRIC: string := "role_aware_throughput"
  const SCHEMA: string := "role-aware-throughput-v2"
  const DEFAULT_POLICY: string := "payload_observed_specs_vs_target_spec"
  const PROVENANCE: string := "AGGREGATE_ZONE_RANKINGS"

  datatype ChannelMetric = PointsAndDamage | PointsAndHealing

  function MetricText(m: ChannelMetric): string {
    match m
    case PointsAndDamage => "points_and_damage"
    case PointsAndHealing => "points_and_healing"
  }

  datatype AggregateRole = DPS | TANK | HEALER

  function RoleText(role: AggregateRole): string {
    match role
    case DPS => "DPS"
    case TANK => "TANK"
    case HEALER => "HEALER"
  }

  function RoleOf(v: Raw): Option<AggregateRole> {
    if v == Str("DPS") then Some(DPS)
    else if v == Str("TANK") then Some(TANK)
    else if v == Str("HEALER") then Some(HEALER)
    else None
  }

  /** The bindings an accepted channel can have. */
  datatype SpecBinding = ExactMatch | CoherentUnproven

  function BindingText(b: SpecBinding): string {
    match b
    case ExactMatch => "EXACT_MATCH"
    case CoherentUnproven => "COHERENT_UNPROVEN"
  }

  function BindingOf(v: Raw): Result<SpecBinding, Failure> {
    if v == Str("EXACT_MATCH") then Ok(ExactMatch)
    else if v == Str("COHERENT_UNPROVEN") then Ok(CoherentUnproven)
    else if v == Str("MISMATCH_REJECTED") then Err(MismatchRejected)
    else Err(BadSpecBinding)
  }

  datatype Channel = Channel(
    metric: ChannelMetric,
    dungeonAggregates: seq<Dungeon>,
    bestPercentileAverage: Option<real>,
    medianPercentileAverage: Option<real>,
    totalLoggedRuns: real,
    totalMythicPlusScore: Option<real>,
    partition: Option<real>,
    zoneId: Option<real>,
    observedSpecs: seq<string>,
    specBinding: SpecBinding,
    wclBestPerformanceAverage: Option<real>,
    wclMedianPerformanceAverage: Option<real>)

  datatype Diagnostics = Diagnostics(
    role: AggregateRole,
    targetSpecSlug: Option<string>,
    damageDungeonCount: nat,
    healingDungeonCount: nat,
    expectedDungeonCount: Option<real>,
    specBindingPolicy: string,
    limitations: seq<string>,
    errorMessage: Option<string>)

  datatype Compact = Compact(
    role: AggregateRole,
    targetSpecSlug: Option<string>,
    zoneId: real,
    partition: Option<real>,
    damage: Channel,
    healing: Option<Channel>,
    diagnostics: Diagnostics)

  // ---- validation ----

  /** `filter((s): s is string => typeof s === "string")`. */
  function OnlyStrings(items: seq<Raw>): seq<string> {
    if items == [] then []
    else (if items[0].Str? then [items[0].s] else []) + OnlyStrings(items[1..])
  }

  function StringsIn(v: Raw): seq<string> {
    if v.Arr? then OnlyStrings(v.items) else []
  }

  /** The checked rows of a channel. */
  function ChannelRows(host: Host, v: Raw): Result<seq<Dungeon>, Failure> {
    if !v.Arr? then Err(BadDungeonList)
    else
      var rows :- NormalizeAll(host, v.items);
      if Dedupe(host, rows) == [] then Err(NoDungeons) else Ok(Dedupe(host, rows))
  }

  /** `normalizeChannel`. */
  function NormalizeChannel(host: Host, raw: Raw, metric: ChannelMetric): Result<Channel, Failure> {
    if !raw.Obj? then Err(NotARecord)
    else if Get(raw.fields, Metric) != Str(MetricText(metric)) then Err(BadMetric)
    else
      var rows :- ChannelRows(host, Get(raw.fields, DungeonAggregates));
      var binding :- BindingOf(Get(raw.fields, SpecBindingField));
      var best :- Percentile(Get(raw.fields, BestPercentileAverage));
      var median :- Percentile(Get(raw.fields, MedianPercentileAverage));
      var runs := Get(raw.fields, TotalLoggedRuns);
      if !runs.Num? then Err(BadTotalRuns)
      else
        var score :- NumberOrNull(Get(raw.fields, TotalMythicPlusScore));
        var partition :- NumberOrNull(Get(raw.fields, Partition));
        var zone :- NumberOrNull(Get(raw.fields, ZoneId));
        var wclBest :- NumberOrNull(Get(raw.fields, WclBestPerformanceAverage));
        var wclMedian :- NumberOrNull(Get(raw.fields, WclMedianPerformanceAverage));
        Ok(Channel(metric, rows, best, median, runs.r, score, partition, zone,
                   StringsIn(Get(raw.fields, ObservedSpecs)), binding, wclBest, wclMedian))
  }

  function CheckDiagnostics(raw: Raw, role: AggregateRole, targetSpecSlug: Option<string>,
                            damageRows: nat, healingRows: nat): Result<Diagnostics, Failure> {
    if !raw.Obj? then Err(BadDiagnostics)
    else
      var expected :- NumberOrNull(Get(raw.fields, ExpectedDungeonCount));
      var policy, message := Get(raw.fields, SpecBindingPolicy), Get(raw.fields, ErrorMessage);
      Ok(Diagnostics(role, targetSpecSlug, damageRows, healingRows, expected,
                     if policy.Str? then policy.s else DEFAULT_POLICY,
                     StringsIn(Get(raw.fields, Limitations)),
                     if message.Str? then Some(message.s) else None))
  }

  predicate IsPositiveInteger(r: real) {
    r > 0.0 && r.Floor as real == r
  }

  /** The healing channel: required for healers, forbidden for everyone else. */
  function CheckHealing(host: Host, raw: Raw, role: AggregateRole): Result<Option<Channel>, Failure> {
    if role.HEALER? then
      if IsNullish(raw) then Err(HealingMissing)
      else
        var channel :- NormalizeChannel(host, raw, PointsAndHealing);
        Ok(Some(channel))
    else if !IsNullish(raw) then Err(HealingNotAllowed)
    else Ok(None)
  }

  /** `assertPersistedCharacterPerformanceAggregateV2`. */
  function Assert(host: Host, value: Raw): Result<Compact, Failure> {
    if !value.Obj? then Err(NotARecord)
    else if Get(value.fields, State) != Str("OK") then Err(BadState)
    else if Get(value.fields, AdapterVersion) != Str(RANKING_VERSION) then Err(BadAdapterVersion)
    else if Get(value.fields, Metric) != Str(METRIC) then Err(BadMetric)
    else if RoleOf(Get(value.fields, Role)).None? then Err(BadRole)
    else
      var role, zone := RoleOf(Get(value.fields, Role)).value, Get(value.fields, ZoneId);
      if !zone.Num? || !IsPositiveInteger(zone.r) then Err(BadZone)
      else
        var partition, target := Get(value.fields, Partition), Get(value.fields, TargetSpecSlug);
        if !IsNullish(partition) && !partition.Num? then Err(BadPartition)
        else if !IsNullish(target) && !target.Str? then Err(BadTargetSpec)
        else
          var damage :- NormalizeChannel(host, Get(value.fields, Damage), PointsAndDamage);
          var healing :- CheckHealing(host, Get(value.fields, Healing), role);
          var spec := if target.Str? then Some(target.s) else None;
          var diagnostics :- CheckDiagnostics(Get(value.fields, DiagnosticsField), role, spec,
                                              |damage.dungeonAggregates|,
                                              if healing.Some? then |healing.value.dungeonAggregates| else 0);
          Ok(Compact(role, spec, zone.r, if partition.Num? then Some(partition.r)
                     else None, damage, healing, diagnostics))
  }

  // ---- what an accepted value satisfies ----

  ghost predicate ValidChannel(host: Host, c: Channel) {
    && AllValid(host, c.dungeonAggregates) && c.dungeonAggregates != []
    && Dedupe(host, c.dungeonAggregates) == c.dungeonAggregates
    && (c.bestPercentileAverage.Some? ==> 0.0 <= c.bestPercentileAverage.value <= 100.0)
    && (c.medianPercentileAverage.Some? ==> 0.0 <= c.medianPercentileAverage.value <= 100.0)
  }

  ghost predicate Valid(host: Host, c: Compact) {
    && IsPositiveInteger(c.zoneId)
    && ValidChannel(host, c.damage) && c.damage.metric == PointsAndDamage
    && (c.role.HEALER? <==> c.healing.Some?)
    && (c.healing.Some? ==> ValidChannel(host, c.healing.value) && c.healing.value.metric == PointsAndHealing)
    && c.diagnostics.role == c.role && c.diagnostics.targetSpecSlug == c.targetSpecSlug
    && c.diagnostics.damageDungeonCount == |c.damage.dungeonAggregates|
    && c.diagnostics.healingDungeonCount == (if c.healing.Some? then |c.healing.value.dungeonAggregates| else 0)
  }

  // ---- database columns ----

  datatype DbColumns = DbColumns(dungeonAggregates: Raw, globalSummary: Raw, diagnostics: Raw)

  function StringValues(ss: seq<string>): seq<Raw> {
    if ss == [] then [] else [Str(ss[0])] + StringValues(ss[1..])
  }

  /** The channel fields that are stored beside the rows. */
  function ChannelFields(c: Channel): map<Field, Raw> {
    map[
      Metric := Str(MetricText(c.metric)),
      BestPercentileAverage := NumberValue(c.bestPercentileAverage),
      MedianPercentileAverage := NumberValue(c.medianPercentileAverage),
      TotalLoggedRuns := Num(c.totalLoggedRuns),
      TotalMythicPlusScore := NumberValue(c.totalMythicPlusScore),
      Partition := NumberValue(c.partition),
      ZoneId := NumberValue(c.zoneId),
      ObservedSpecs := Arr(StringValues(c.observedSpecs)),
      SpecBindingField := Str(BindingText(c.specBinding)),
      WclBestPerformanceAverage := NumberValue(c.wclBestPerformanceAverage),
      WclMedianPerformanceAverage := NumberValue(c.wclMedianPerformanceAverage)]
  }

  function RowsValue(c: Channel): Raw {
    Arr(DungeonValues(c.dungeonAggregates))
  }

  function DiagnosticsValue(d: Diagnostics): Raw {
    var fields: map<Field, Raw> := map[
      AdapterVersion := Str(RANKING_VERSION),
      Metric := Str(METRIC),
      Provenance := Str(PROVENANCE),
      Role := Str(RoleText(d.role)),
      TargetSpecSlug := TextValue(d.targetSpecSlug),
      DamageDungeonCount := Num(d.damageDungeonCount as real),
      HealingDungeonCount := Num(d.healingDungeonCount as real),
      ExpectedDungeonCount := NumberValue(d.expectedDungeonCount),
      SpecBindingPolicy := Str(d.specBindingPolicy),
      Limitations := Arr(StringValues(d.limitations))];
    Obj(if d.errorMessage.Some? then fields[ErrorMessage := Str(d.errorMessage.value)] else fields)
  }

  /** `toPerformanceAggregateDbColumnsV2`. */
  function ToDbColumns(c: Compact): DbColumns {
    DbColumns(
      RowsValue(c.damage),
      Obj(map[
        Schema := Str(SCHEMA),
        Role := Str(RoleText(c.role)),
        TargetSpecSlug := TextValue(c.targetSpecSlug),
        Damage := Obj(ChannelFields(c.damage)),
        Healing := if c.healing.Some?
                   then Obj(ChannelFields(c.healing.value)[DungeonAggregates := RowsValue(c.healing.value)])
                   else Null]),
      DiagnosticsValue(c.diagnostics))
  }

  /** `{...v}`: of the fields read here, only an object's own ones. */
  function Spread(v: Raw): map<Field, Raw> {
    if v.Obj? then v.fields else map[]
  }

  /** The object that `compactFromPerformanceAggregateDbColumnsV2` hands to the validator. */
  function Reassemble(rankingVersion: string, metric: string, zoneId: real, partition: Option<real>, db: DbColumns): Raw
    requires db.globalSummary.Obj? && Get(db.globalSummary.fields, Damage).Obj?
  {
    var summary := db.globalSummary.fields;
    var target, healing := Get(summary, TargetSpecSlug), Get(summary, Healing);
    Obj(map[
      State := Str("OK"),
      AdapterVersion := Str(rankingVersion),
      Metric := Str(metric),
      Role := Get(summary, Role),
      TargetSpecSlug := if IsNullish(target) then Null else target,
      ZoneId := Num(zoneId),
      Partition := NumberValue(partition),
      Damage := Obj(Get(summary, Damage).fields[Metric := Str(MetricText(PointsAndDamage))]
                                               [DungeonAggregates := db.dungeonAggregates]),
      Healing := if IsNullish(healing) then Null else Obj(Spread(healing)[Metric := Str(MetricText(PointsAndHealing))]),
      DiagnosticsField := db.diagnostics])
  }

  /** `compactFromPerformanceAggregateDbColumnsV2`. */
  function FromDbColumns(host: Host, rankingVersion: string, metric: string, zoneId: real, partition: Option<real>,
                         db: DbColumns): Result<Compact, Failure> {
    if !db.globalSummary.Obj? || Get(db.globalSummary.fields, Schema) != Str(SCHEMA) then Err(BadSchema)
    else if !Get(db.globalSummary.fields, Damage).Obj? then Err(BadDamageSummary)
    else Assert(host, Reassemble(rankingVersion, metric, zoneId, partition, db))
  }

  // ---- the round trip ----

  lemma {:induction false} StringsRoundTrip(ss: seq<string>)
    ensures OnlyStrings(StringValues(ss)) == ss
  {
    if ss != [] {
      StringsRoundTrip(ss[1..]);
      assert StringValues(ss)[1..] == StringValues(ss[1..]);
    }
  }

  lemma TagsRoundTrip()
    ensures forall b :: BindingOf(Str(BindingText(b))) == Ok(b)
    ensures forall r :: RoleOf(Str(RoleText(r))) == Some(r)
    ensures Str(MetricText(PointsAndDamage)) != Str(MetricText(PointsAndHealing))
  {
    assert |"EXACT_MATCH"| != |"COHERENT_UNPROVEN"|;
    assert "DPS"[0] != "TANK"[0] && "DPS"[0] != "HEALER"[0] && "TANK"[0] != "HEALER"[0];
    assert |"points_and_damage"| != |"points_and_healing"|;
  }

  lemma ChannelRowsValid(host: Host, v: Raw)
    requires IsLocaleOrder(host.localeCompare) && ChannelRows(host, v).Ok?
    ensures var rows := ChannelRows(host, v).value;
            AllValid(host, rows) && rows != [] && Dedupe(host, rows) == rows
  {
    var rows := NormalizeAll(host, v.items).value;
    NormalizeAllValid(host, v.items);
    DedupeIdempotent(host, rows);
    DedupeOneRowPerKey(host, rows, "");
    var kept := Dedupe(host, rows);
    forall i | 0 <= i < |kept|
      ensures ValidDungeon(host, kept[i])
    {
      assert kept[i] in rows;
    }
    hide Dedupe, NormalizeAll, ValidDungeon;
  }

  lemma PercentileInRange(v: Raw)
    ensures Percentile(v).Ok? && Percentile(v).value.Some? ==> 0.0 <= Percentile(v).value.value <= 100.0
  {
  }

  lemma AcceptedChannelIsValid(host: Host, raw: Raw, metric: ChannelMetric)
    requires IsLocaleOrder(host.localeCompare) && NormalizeChannel(host, raw, metric).Ok?
    ensures ValidChannel(host, NormalizeChannel(host, raw, metric).value)
    ensures NormalizeChannel(host, raw, metric).value.metric == metric
  {
    hide ChannelRows, Dedupe, AllValid, BindingOf, MetricText, StringsIn, Percentile, NumberOrNull, Get, IsLocaleOrder;
    ChannelRowsValid(host, Get(raw.fields, DungeonAggregates));
    PercentileInRange(Get(raw.fields, BestPercentileAverage));
    PercentileInRange(Get(raw.fields, MedianPercentileAverage));
  }

  lemma AcceptedIsValid(host: Host, value: Raw)
    requires IsLocaleOrder(host.localeCompare) && Assert(host, value).Ok?
    ensures Valid(host, Assert(host, value).value)
  {
    hide NormalizeChannel, ValidChannel, StringsIn, IsLocaleOrder, NumberOrNull, Get, IsPositiveInteger;
    AcceptedChannelIsValid(host, Get(value.fields, Damage), PointsAndDamage);
    if RoleOf(Get(value.fields, Role)) == Some(HEALER) {
      AcceptedChannelIsValid(host, Get(value.fields, Healing), PointsAndHealing);
    }
  }

  /** `fields` holds what the object of channel `c` holds. */
  ghost predicate HoldsChannel(fields: map<Field, Raw>, c: Channel) {
    && Get(fields, Metric) == Str(MetricText(c.metric))
    && Get(fields, DungeonAggregates) == RowsValue(c)
    && Get(fields, BestPercentileAverage) == NumberValue(c.bestPercentileAverage)
    && Get(fields, MedianPercentileAverage) == NumberValue(c.medianPercentileAverage)
    && Get(fields, TotalLoggedRuns) == Num(c.totalLoggedRuns)
    && Get(fields, TotalMythicPlusScore) == NumberValue(c.totalMythicPlusScore)
    && Get(fields, Partition) == NumberValue(c.partition)
    && Get(fields, ZoneId) == NumberValue(c.zoneId)
    && Get(fields, ObservedSpecs) == Arr(StringValues(c.observedSpecs))
    && Get(fields, SpecBindingField) == Str(BindingText(c.specBinding))
    && Get(fields, WclBestPerformanceAverage) == NumberValue(c.wclBestPerformanceAverage)
    && Get(fields, WclMedianPerformanceAverage) == NumberValue(c.wclMedianPerformanceAverage)
  }

  lemma StoredChannelHolds(c: Channel)
    ensures HoldsChannel(ChannelFields(c)[Metric := Str(MetricText(c.metric))][DungeonAggregates := RowsValue(c)], c)
    ensures HoldsChannel(ChannelFields(c)[DungeonAggregates := RowsValue(c)][Metric := Str(MetricText(c.metric))], c)
  {
    hide RowsValue, MetricText, BindingText, StringValues, NumberValue;
  }

  lemma RowsAccepted(host: Host, c: Channel)
    requires ValidChannel(host, c)
    ensures ChannelRows(host, RowsValue(c)) == Ok(c.dungeonAggregates)
  {
    NormalizeAllRoundTrip(host, c.dungeonAggregates);
    hide Dedupe, NormalizeAll, AllValid, DungeonValues;
  }

  lemma ChannelAccepted(host: Host, fields: map<Field, Raw>, c: Channel)
    requires ValidChannel(host, c) && HoldsChannel(fields, c)
    ensures NormalizeChannel(host, Obj(fields), c.metric) == Ok(c)
  {
    RowsAccepted(host, c);
    TagsRoundTrip();
    StringsRoundTrip(c.observedSpecs);
    NumberRoundTrip(c.bestPercentileAverage);
    NumberRoundTrip(c.medianPercentileAverage);
    NumberRoundTrip(c.totalMythicPlusScore);
    NumberRoundTrip(c.partition);
    NumberRoundTrip(c.zoneId);
    NumberRoundTrip(c.wclBestPerformanceAverage);
    NumberRoundTrip(c.wclMedianPerformanceAverage);
    assert StringsIn(Arr(StringValues(c.observedSpecs))) == c.observedSpecs;
    hide ChannelRows, Dedupe, AllValid, BindingOf, BindingText, MetricText, StringsIn, StringValues, NumberOrNull,
      Percentile, NumberValue, RowsValue, Get;
  }

  lemma DiagnosticsAccepted(d: Diagnostics)
    ensures CheckDiagnostics(DiagnosticsValue(d), d.role, d.targetSpecSlug, d.damageDungeonCount,
                             d.healingDungeonCount) == Ok(d)
  {
    StringsRoundTrip(d.limitations);
    NumberRoundTrip(d.expectedDungeonCount);
    hide NumberOrNull, NumberValue, StringValues, RoleText;
  }

  /** The summary column gives back what it was made from. */
  lemma SummaryFields(c: Compact)
    ensures var summary := ToDbColumns(c).globalSummary.fields;
            && Get(summary, Schema) == Str(SCHEMA) && Get(summary, Role) == Str(RoleText(c.role))
            && Get(summary, TargetSpecSlug) == TextValue(c.targetSpecSlug)
            && Get(summary, Damage) == Obj(ChannelFields(c.damage))
            && Get(summary, Healing) == (if c.healing.Some?
                 then Obj(ChannelFields(c.healing.value)[DungeonAggregates := RowsValue(c.healing.value)]) else Null)
  {
    hide ChannelFields, RowsValue, DiagnosticsValue, RoleText;
  }

  lemma ReassembledFields(zoneId: real, partition: Option<real>, db: DbColumns)
    requires db.globalSummary.Obj? && Get(db.globalSummary.fields, Damage).Obj?
    ensures var v, summary := Reassemble(RANKING_VERSION, METRIC, zoneId, partition, db), db.globalSummary.fields;
            var target, healing := Get(summary, TargetSpecSlug), Get(summary, Healing);
            && v.Obj?
            && Get(v.fields, State) == Str("OK") && Get(v.fields, AdapterVersion) == Str(RANKING_VERSION)
            && Get(v.fields, Metric) == Str(METRIC) && Get(v.fields, Role) == Get(summary, Role)
            && Get(v.fields, TargetSpecSlug) == (if IsNullish(target) then Null else target)
            && Get(v.fields, ZoneId) == Num(zoneId) && Get(v.fields, Partition) == NumberValue(partition)
            && Get(v.fields, Damage)
               == Obj(Get(summary, Damage).fields[Metric := Str(MetricText(PointsAndDamage))]
                                                 [DungeonAggregates := db.dungeonAggregates])
            && Get(v.fields, Healing)
               == (if IsNullish(healing) then Null
                   else Obj(Spread(healing)[Metric := Str(MetricText(PointsAndHealing))]))
            && Get(v.fields, DiagnosticsField) == db.diagnostics
  {
    hide MetricText, NumberValue, Spread;
  }

  /** `fields` holds, field by field, what the validator reads of `c`. */
  ghost predicate HoldsCompact(fields: map<Field, Raw>, c: Compact) {
    && Get(fields, State) == Str("OK") && Get(fields, AdapterVersion) == Str(RANKING_VERSION)
    && Get(fields, Metric) == Str(METRIC)
    && Get(fields, Role) == Str(RoleText(c.role)) && Get(fields, TargetSpecSlug) == TextValue(c.targetSpecSlug)
    && Get(fields, ZoneId) == Num(c.zoneId) && Get(fields, Partition) == NumberValue(c.partition)
    && Get(fields, Damage).Obj? && HoldsChannel(Get(fields, Damage).fields, c.damage)
    && (if c.healing.Some? then Get(fields, Healing).Obj? && HoldsChannel(Get(fields, Healing).fields, c.healing.value)
        else Get(fields, Healing) == Null)
    && Get(fields, DiagnosticsField) == DiagnosticsValue(c.diagnostics)
  }

  lemma ReassembledHolds(c: Compact)
    requires c.damage.metric == PointsAndDamage && (c.healing.Some? ==> c.healing.value.metric == PointsAndHealing)
    ensures var db := ToDbColumns(c);
            && db.globalSummary.Obj? && Get(db.globalSummary.fields, Damage).Obj?
            && Get(db.globalSummary.fields, Schema) == Str(SCHEMA)
            && var v := Reassemble(RANKING_VERSION, METRIC, c.zoneId, c.partition, db);
               v.Obj? && HoldsCompact(v.fields, c)
  {
    var db := ToDbColumns(c);
    SummaryFields(c);
    assert db.globalSummary.Obj?;
    ReassembledFields(c.zoneId, c.partition, db);
    StoredChannelHolds(c.damage);
    if c.healing.Some? {
      StoredChannelHolds(c.healing.value);
    }
    assert db.dungeonAggregates == RowsValue(c.damage) && db.diagnostics == DiagnosticsValue(c.diagnostics);
    hide ToDbColumns, Reassemble, Get, ChannelFields, RowsValue, DiagnosticsValue, RoleText, MetricText, HoldsChannel;
  }

  lemma ZoneAndTarget(c: Compact)
    ensures IsNullish(TextValue(c.targetSpecSlug)) || TextValue(c.targetSpecSlug).Str?
    ensures IsNullish(NumberValue(c.partition)) || NumberValue(c.partition).Num?
    ensures (if TextValue(c.targetSpecSlug).Str? then Some(TextValue(c.targetSpecSlug).s) else None) == c.targetSpecSlug
    ensures (if NumberValue(c.partition).Num? then Some(NumberValue(c.partition).r) else None) == c.partition
  {
  }

  lemma RoleAccepted(role: AggregateRole)
    ensures RoleOf(Str(RoleText(role))) == Some(role)
  {
    TagsRoundTrip();
  }

  lemma HealingAccepted(host: Host, raw: Raw, c: Compact)
    requires Valid(host, c)
    requires if c.healing.Some? then raw.Obj? && HoldsChannel(raw.fields, c.healing.value) else raw == Null
    ensures CheckHealing(host, raw, c.role) == Ok(c.healing)
  {
    if c.healing.Some? {
      ChannelAccepted(host, raw.fields, c.healing.value);
    }
    hide NormalizeChannel, HoldsChannel, ValidChannel;
  }

  /** The validator accepts an object that holds a valid compact value, and returns that value. */
  lemma HoldingIsAccepted(host: Host, fields: map<Field, Raw>, c: Compact)
    requires Valid(host, c) && HoldsCompact(fields, c)
    ensures Assert(host, Obj(fields)) == Ok(c)
  {
    ZoneAndTarget(c);
    RoleAccepted(c.role);
    ChannelAccepted(host, Get(fields, Damage).fields, c.damage);
    HealingAccepted(host, Get(fields, Healing), c);
    DiagnosticsAccepted(c.diagnostics);
    hide Get, HoldsChannel, ValidChannel, NormalizeChannel, CheckDiagnostics, DiagnosticsValue, RoleOf, RoleText,
      NumberValue, TextValue, CheckHealing, IsPositiveInteger;
  }

  /** Every valid compact value survives the columns unchanged. */
  lemma ColumnsRoundTrip(host: Host, c: Compact)
    requires Valid(host, c)
    ensures FromDbColumns(host, RANKING_VERSION, METRIC, c.zoneId, c.partition, ToDbColumns(c)) == Ok(c)
  {
    ReassembledHolds(c);
    var v := Reassemble(RANKING_VERSION, METRIC, c.zoneId, c.partition, ToDbColumns(c));
    HoldingIsAccepted(host, v.fields, c);
    hide ToDbColumns, Reassemble, Get, HoldsCompact, Valid, Assert;
  }

  /** The columns give back a compact value exactly when it is one the validator could have produced. */
  lemma ColumnsRoundTripExactly(host: Host, c: Compact)
    requires IsLocaleOrder(host.localeCompare)
    ensures FromDbColumns(host, RANKING_VERSION, METRIC, c.zoneId, c.partition, ToDbColumns(c)) == Ok(c) <==>
      Valid(host, c)
  {
    if Valid(host, c) {
      ColumnsRoundTrip(host, c);
    }
    var db := ToDbColumns(c);
    var r := FromDbColumns(host, RANKING_VERSION, METRIC, c.zoneId, c.partition, db);
    if r == Ok(c) {
      AcceptedIsValid(host, Reassemble(RANKING_VERSION, METRIC, c.zoneId, c.partition, db));
    }
    hide ToDbColumns, Reassemble, Assert, Valid;
  }

  /** Whatever the validator accepts, from any source, survives the columns unchanged. */
  lemma AcceptedSurvivesColumns(host: Host, value: Raw)
    requires IsLocaleOrder(host.localeCompare) && Assert(host, value).Ok?
    ensures var c := Assert(host, value).value;
            FromDbColumns(host, RANKING_VERSION, METRIC, c.zoneId, c.partition, ToDbColumns(c)) == Ok(c)
  {
    AcceptedIsValid(host, value);
    ColumnsRoundTrip(host, Assert(host, value).value);
    hide Assert, FromDbColumns, ToDbColumns;
  }
}
