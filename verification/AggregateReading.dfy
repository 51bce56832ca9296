/**
  What the V2 validator accepts and what it makes of it, field by field of the raw value
  (packages/contracts/src/character-performance-aggregate-v2.ts).
 */
module AggregateReading {
  import opened Wrappers
  import opened JsHost
  import opened Sorting
  import opened Choices
  import opened DungeonRows
  import opened PerformanceAggregate

  /** A field that may be missing or null, or holds a finite number. */
  predicate ReadsNumber(v: Raw, n: Option<real>) {
    if v.Undefined? || v.Null? then n == None else v.Num? && n == Some(v.r)
  }

  predicate ReadsPercentile(v: Raw, n: Option<real>) {
    ReadsNumber(v, n) && (n.Some? ==> 0.0 <= n.value <= 100.0)
  }

  predicate ReadsText(v: Raw, s: Option<string>) {
    if v.Undefined? || v.Null? then s == None else v.Str? && s == Some(v.s)
  }

  predicate IsText(v: Raw) {
    v.Str?
  }

  /** Of a list the texts in it, in their order; of anything else none. */
  ghost predicate ReadsTexts(v: Raw, ss: seq<string>) {
    if v.Arr? then IsChoice(v.items, IsText, StringValues(ss)) else ss == []
  }

  /** The row has the fields of the object, and they are those of a valid row. */
  predicate ReadsRow(host: Host, v: Raw, d: Dungeon) {
    && v.Obj?
    && Get(v.fields, DungeonSlug) == Str(d.dungeonSlug) && Get(v.fields, DungeonName) == Str(d.dungeonName)
    && ReadsNumber(Get(v.fields, EncounterId), d.encounterId)
    && ReadsNumber(Get(v.fields, BestParsePercentile), d.bestParsePercentile)
    && ReadsNumber(Get(v.fields, MedianParsePercentile), d.medianParsePercentile)
    && ReadsNumber(Get(v.fields, LoggedRunCount), d.loggedRunCount)
    && ReadsText(Get(v.fields, Specialization), d.specialization)
    && ReadsNumber(Get(v.fields, KeystoneLevel), d.keystoneLevel)
    && ReadsNumber(Get(v.fields, BestDps), d.bestDps)
    && ValidDungeon(host, d)
  }

  predicate ReadsRows(host: Host, v: Raw, rows: seq<Dungeon>) {
    && v.Arr? && |v.items| == |rows|
    && forall i :: 0 <= i < |rows| ==> ReadsRow(host, v.items[i], rows[i])
  }

  /** The rows of the channel are the first of every key among those of the object, of which there is one at least. */
  ghost predicate KeepsRows(host: Host, v: Raw, kept: seq<Dungeon>) {
    exists rows :: ReadsRows(host, v, rows) && rows != [] && KeepsFirsts(host, rows, kept)
  }

  ghost predicate ReadsChannel(host: Host, v: Raw, metric: ChannelMetric, c: Channel) {
    && v.Obj? && c.metric == metric
    && Get(v.fields, Metric) == Str(match metric case PointsAndDamage => "points_and_damage"
                                                 case PointsAndHealing => "points_and_healing")
    && KeepsRows(host, Get(v.fields, DungeonAggregates), c.dungeonAggregates)
    && Get(v.fields, SpecBindingField) == Str(match c.specBinding case ExactMatch => "EXACT_MATCH"
                                                                  case CoherentUnproven => "COHERENT_UNPROVEN")
    && ReadsPercentile(Get(v.fields, BestPercentileAverage), c.bestPercentileAverage)
    && ReadsPercentile(Get(v.fields, MedianPercentileAverage), c.medianPercentileAverage)
    && Get(v.fields, TotalLoggedRuns) == Num(c.totalLoggedRuns)
    && ReadsNumber(Get(v.fields, TotalMythicPlusScore), c.totalMythicPlusScore)
    && ReadsNumber(Get(v.fields, Partition), c.partition)
    && ReadsNumber(Get(v.fields, ZoneId), c.zoneId)
    && ReadsTexts(Get(v.fields, ObservedSpecs), c.observedSpecs)
    && ReadsNumber(Get(v.fields, WclBestPerformanceAverage), c.wclBestPerformanceAverage)
    && ReadsNumber(Get(v.fields, WclMedianPerformanceAverage), c.wclMedianPerformanceAverage)
  }

  /** A healer's healing channel; of anyone else there must be none. */
  ghost predicate ReadsHealing(host: Host, v: Raw, role: AggregateRole, healing: Option<Channel>) {
    if role.HEALER? then healing.Some? && ReadsChannel(host, v, PointsAndHealing, healing.value)
    else (v.Undefined? || v.Null?) && healing == None
  }

  /** The counts are those of the rows kept, whatever the object says of them. */
  ghost predicate ReadsDiagnostics(v: Raw, c: Compact) {
    var d := c.diagnostics;
    && v.Obj? && d.role == c.role && d.targetSpecSlug == c.targetSpecSlug
    && d.damageDungeonCount == |c.damage.dungeonAggregates|
    && d.healingDungeonCount == (if c.healing.Some? then |c.healing.value.dungeonAggregates| else 0)
    && ReadsNumber(Get(v.fields, ExpectedDungeonCount), d.expectedDungeonCount)
    && d.specBindingPolicy == (var policy := Get(v.fields, SpecBindingPolicy);
                               if policy.Str? then policy.s else "payload_observed_specs_vs_target_spec")
    && ReadsTexts(Get(v.fields, Limitations), d.limitations)
    && d.errorMessage == (var message := Get(v.fields, ErrorMessage); if message.Str? then Some(message.s) else None)
  }

  ghost predicate ReadsCompact(host: Host, v: Raw, c: Compact) {
    && v.Obj?
    && Get(v.fields, State) == Str("OK")
    && Get(v.fields, AdapterVersion) == Str("role-aware-throughput-v2")
    && Get(v.fields, Metric) == Str("role_aware_throughput")
    && Get(v.fields, Role) == Str(match c.role case DPS => "DPS" case TANK => "TANK" case HEALER => "HEALER")
    && Get(v.fields, ZoneId) == Num(c.zoneId) && c.zoneId > 0.0 && c.zoneId.Floor as real == c.zoneId
    && ReadsNumber(Get(v.fields, Partition), c.partition)
    && ReadsText(Get(v.fields, TargetSpecSlug), c.targetSpecSlug)
    && ReadsChannel(host, Get(v.fields, Damage), PointsAndDamage, c.damage)
    && ReadsHealing(host, Get(v.fields, Healing), c.role, c.healing)
    && ReadsDiagnostics(Get(v.fields, DiagnosticsField), c)
  }

  // ---- the parts ----

  lemma NumberExactly(v: Raw, n: Option<real>)
    ensures NumberOrNull(v) == Ok(n) <==> ReadsNumber(v, n)
    ensures Percentile(v) == Ok(n) <==> ReadsPercentile(v, n)
  {
  }

  lemma RowExactly(host: Host, v: Raw, d: Dungeon)
    ensures NormalizeDungeon(host, v) == Ok(d) <==> ReadsRow(host, v, d)
  {
    if v.Obj? {
      NumberExactly(Get(v.fields, BestParsePercentile), d.bestParsePercentile);
      NumberExactly(Get(v.fields, MedianParsePercentile), d.medianParsePercentile);
      NumberExactly(Get(v.fields, LoggedRunCount), d.loggedRunCount);
      NumberExactly(Get(v.fields, KeystoneLevel), d.keystoneLevel);
      NumberExactly(Get(v.fields, BestDps), d.bestDps);
    }
    hide Get;
  }

  lemma {:induction false} RowsExactly(host: Host, items: seq<Raw>, rows: seq<Dungeon>)
    ensures NormalizeAll(host, items) == Ok(rows) <==> ReadsRows(host, Arr(items), rows)
  {
    hide NormalizeDungeon, ReadsRow;
    if items != [] && rows != [] {
      RowExactly(host, items[0], rows[0]);
      RowsExactly(host, items[1..], rows[1..]);
      assert rows == [rows[0]] + rows[1..];
      assert forall i :: 0 < i < |items| ==> items[i] == items[1..][i - 1];
      assert forall i :: 0 < i < |rows| ==> rows[i] == rows[1..][i - 1];
      assert forall i :: 0 <= i < |rows| - 1 ==> rows[1..][i] == rows[i + 1];
      assert forall i :: 0 <= i < |items| - 1 ==> items[1..][i] == items[i + 1];
      if NormalizeAll(host, items) == Ok(rows) {
        assert NormalizeAll(host, items[1..]).Ok?;
        assert rows[1..] == NormalizeAll(host, items[1..]).value;
      }
    }
  }

  lemma {:induction false} TextsChosen(items: seq<Raw>)
    ensures IsChoice(items, IsText, StringValues(OnlyStrings(items)))
  {
    hide IsChoice;
    if items == [] {
      ChoiceOfNone(IsText);
    } else {
      var rest := OnlyStrings(items[1..]);
      TextsChosen(items[1..]);
      ChoiceGrows(items[0], items[1..], IsText, StringValues(rest));
      assert items == [items[0]] + items[1..] && [] + rest == rest && [] + StringValues(rest) == StringValues(rest);
      assert items[0].Str? ==> ([items[0].s] + rest)[1..] == rest;
    }
  }

  lemma {:induction false} TextValuesDiffer(ss: seq<string>, ts: seq<string>)
    ensures StringValues(ss) == StringValues(ts) <==> ss == ts
  {
    if ss != [] && ts != [] {
      TextValuesDiffer(ss[1..], ts[1..]);
      assert ss == [ss[0]] + ss[1..] && ts == [ts[0]] + ts[1..];
      assert StringValues(ss)[1..] == StringValues(ss[1..]) && StringValues(ts)[1..] == StringValues(ts[1..]);
      assert StringValues(ss)[0] == Str(ss[0]) && StringValues(ts)[0] == Str(ts[0]);
    }
  }

  lemma TextsExactly(v: Raw, ss: seq<string>)
    ensures StringsIn(v) == ss <==> ReadsTexts(v, ss)
  {
    if v.Arr? {
      var own := OnlyStrings(v.items);
      TextsChosen(v.items);
      TextValuesDiffer(own, ss);
      hide IsChoice, StringValues, OnlyStrings;
      if ReadsTexts(v, ss) {
        ChoiceUnique(v.items, IsText, StringValues(own), StringValues(ss));
      }
    }
  }

  lemma NothingFirst(host: Host, rows: seq<Dungeon>)
    requires rows == []
    ensures FirstOfEach(host, rows, {}) == []
  {
  }

  lemma SomeRowStays(host: Host, rows: seq<Dungeon>)
    requires IsLocaleOrder(host.localeCompare)
    ensures Dedupe(host, rows) == [] <==> rows == []
  {
    hide RowKey, FirstOfEach;
    if rows != [] {
      DedupeOneRowPerKey(host, rows, RowKey(host, rows[0]));
      assert rows[0] in rows;
    } else {
      SortPermutes(RowLe(host), rows);
      assert |Sort(RowLe(host), rows)| == 0;
      NothingFirst(host, Sort(RowLe(host), rows));
    }
  }

  lemma KeptRowsExactly(host: Host, v: Raw, kept: seq<Dungeon>)
    requires IsLocaleOrder(host.localeCompare)
    ensures ChannelRows(host, v) == Ok(kept) <==> KeepsRows(host, v, kept)
  {
    hide NormalizeDungeon, NormalizeAll, Dedupe, KeepsFirsts, ReadsRows, IsLocaleOrder;
    if v.Arr? {
      if ChannelRows(host, v) == Ok(kept) {
        var rows := NormalizeAll(host, v.items).value;
        RowsExactly(host, v.items, rows);
        SomeRowStays(host, rows);
        DedupeExactly(host, rows, kept);
        assert ReadsRows(host, v, rows) && rows != [] && KeepsFirsts(host, rows, kept);
      }
      if rows :| ReadsRows(host, v, rows) && rows != [] && KeepsFirsts(host, rows, kept) {
        RowsExactly(host, v.items, rows);
        SomeRowStays(host, rows);
        DedupeExactly(host, rows, kept);
      }
    } else {
      RowsAreListed(host, v);
    }
  }

  lemma RowsAreListed(host: Host, v: Raw)
    requires !v.Arr?
    ensures forall rows :: !ReadsRows(host, v, rows)
  {
  }

  // ---- the whole ----

  lemma ChannelExactly(host: Host, v: Raw, metric: ChannelMetric, c: Channel)
    requires IsLocaleOrder(host.localeCompare)
    ensures NormalizeChannel(host, v, metric) == Ok(c) <==> ReadsChannel(host, v, metric, c)
  {
    if v.Obj? {
      KeptRowsExactly(host, Get(v.fields, DungeonAggregates), c.dungeonAggregates);
      NumberExactly(Get(v.fields, BestPercentileAverage), c.bestPercentileAverage);
      NumberExactly(Get(v.fields, MedianPercentileAverage), c.medianPercentileAverage);
      NumberExactly(Get(v.fields, TotalMythicPlusScore), c.totalMythicPlusScore);
      NumberExactly(Get(v.fields, Partition), c.partition);
      NumberExactly(Get(v.fields, ZoneId), c.zoneId);
      NumberExactly(Get(v.fields, WclBestPerformanceAverage), c.wclBestPerformanceAverage);
      NumberExactly(Get(v.fields, WclMedianPerformanceAverage), c.wclMedianPerformanceAverage);
      TextsExactly(Get(v.fields, ObservedSpecs), c.observedSpecs);
      BindingExactly(Get(v.fields, SpecBindingField), c.specBinding);
    }
    hide Get, ChannelRows, KeepsRows, Percentile, NumberOrNull, ReadsNumber, ReadsPercentile, ReadsTexts, StringsIn,
      BindingOf;
  }

  lemma BindingExactly(v: Raw, b: SpecBinding)
    ensures BindingOf(v) == Ok(b) <==>
      v == Str(match b case ExactMatch => "EXACT_MATCH" case CoherentUnproven => "COHERENT_UNPROVEN")
  {
  }

  lemma HealingExactly(host: Host, v: Raw, role: AggregateRole, healing: Option<Channel>)
    requires IsLocaleOrder(host.localeCompare)
    ensures CheckHealing(host, v, role) == Ok(healing) <==> ReadsHealing(host, v, role, healing)
  {
    if healing.Some? {
      ChannelExactly(host, v, PointsAndHealing, healing.value);
      assert ReadsChannel(host, v, PointsAndHealing, healing.value) ==> v.Obj?;
    }
    hide NormalizeChannel, ReadsChannel;
  }

  lemma DiagnosticsExactly(v: Raw, c: Compact)
    ensures CheckDiagnostics(v, c.role, c.targetSpecSlug, |c.damage.dungeonAggregates|,
                             if c.healing.Some? then |c.healing.value.dungeonAggregates| else 0) == Ok(c.diagnostics)
            <==> ReadsDiagnostics(v, c)
  {
    if v.Obj? {
      NumberExactly(Get(v.fields, ExpectedDungeonCount), c.diagnostics.expectedDungeonCount);
      TextsExactly(Get(v.fields, Limitations), c.diagnostics.limitations);
    }
    hide Get, NumberOrNull, ReadsNumber, StringsIn, ReadsTexts;
  }

  lemma RoleExactly(v: Raw, role: AggregateRole)
    ensures RoleOf(v) == Some(role) <==>
      v == Str(match role case DPS => "DPS" case TANK => "TANK" case HEALER => "HEALER")
  {
  }

  lemma OptionalExactly(v: Raw, n: Option<real>)
    ensures ReadsNumber(v, n) <==> (IsNullish(v) || v.Num?) && n == if v.Num? then Some(v.r) else None
  {
  }

  lemma TargetExactly(v: Raw, s: Option<string>)
    ensures ReadsText(v, s) <==> (IsNullish(v) || v.Str?) && s == if v.Str? then Some(v.s) else None
  {
  }

  /**
    The validator returns a value exactly when the raw one reads as it: that says when it accepts, what every field of
    the result is, and which rows are kept. Names of fields that are not read do not matter.
   */
  lemma AcceptsExactly(host: Host, v: Raw, c: Compact)
    requires IsLocaleOrder(host.localeCompare)
    ensures Assert(host, v) == Ok(c) <==> ReadsCompact(host, v, c)
  {
    if v.Obj? {
      RoleExactly(Get(v.fields, Role), c.role);
      OptionalExactly(Get(v.fields, Partition), c.partition);
      TargetExactly(Get(v.fields, TargetSpecSlug), c.targetSpecSlug);
      ChannelExactly(host, Get(v.fields, Damage), PointsAndDamage, c.damage);
      HealingExactly(host, Get(v.fields, Healing), c.role, c.healing);
      DiagnosticsExactly(Get(v.fields, DiagnosticsField), c);
      assert IsPositiveInteger(c.zoneId) <==> c.zoneId > 0.0 && c.zoneId.Floor as real == c.zoneId;
    }
    hide IsPositiveInteger, ReadsNumber, ReadsText, IsNullish;
    hide Get, NormalizeChannel, ReadsChannel, CheckHealing, ReadsHealing, CheckDiagnostics, ReadsDiagnostics, RoleOf;
  }
}
