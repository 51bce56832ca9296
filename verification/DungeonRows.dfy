/** Dungeon rows of a performance aggregate: validation of raw rows, the stable sort, and deduplication. */
module DungeonRows {
  import opened Wrappers
  import opened Sorting
  import opened JsHost
  import opened Choices

  /** String comparison, lower-casing and the texts of numbers. */
  datatype Host = Host(localeCompare: (string, string) -> int, lower: string -> string, numbers: Numbers<char>)

  /** Different doubles have different texts, none of them empty, `null` or with a colon. */
  ghost predicate NumberTexts(host: Host) {
    TellsApart(host.numbers) && NeverPrints(host.numbers, ':') && NeverReads(host.numbers, {"null"})
  }

  // ---- raw values ----

  /** Property names that the validators read; anything else is `Other`. */
  datatype Field =
    | State | AdapterVersion | Metric | Role | TargetSpecSlug | ZoneId | Partition | Damage | Healing
    | DiagnosticsField | Schema
    | DungeonSlug | DungeonName | EncounterId | BestParsePercentile | MedianParsePercentile | LoggedRunCount
    | Specialization | KeystoneLevel | BestDps
    | DungeonAggregates | BestPercentileAverage | MedianPercentileAverage | TotalLoggedRuns
    | TotalMythicPlusScore | ObservedSpecs | SpecBindingField | WclBestPerformanceAverage
    | WclMedianPerformanceAverage
    | Provenance | DamageDungeonCount | HealingDungeonCount | ExpectedDungeonCount | SpecBindingPolicy
    | Limitations | ErrorMessage
    | Other(name: string)

  /** A JavaScript value of unknown type. */
  datatype Raw =
    | Undefined
    | Null
    | Boolean(b: bool)
    | Num(r: real)
    | NonFinite
    | Str(s: string)
    | Arr(items: seq<Raw>)
    | Obj(fields: map<Field, Raw>)

  function Get(fields: map<Field, Raw>, f: Field): Raw {
    if f in fields then fields[f] else Undefined
  }

  predicate IsNullish(v: Raw) {
    v.Undefined? || v.Null?
  }

  datatype Failure =
    | NotARecord | BadSlug | UnknownSlug | BadName | UnknownName | BadEncounter | BadNumber | PercentileRange
    | NoPercentile | NegativeRuns | NegativeDps | BadSpecialization
    | BadState | BadAdapterVersion | BadMetric | BadRole | BadZone | BadPartition | BadTargetSpec
    | BadDungeonList | NoDungeons | BadSpecBinding | MismatchRejected | BadTotalRuns
    | HealingMissing | HealingNotAllowed | BadDiagnostics | BadSchema | BadDamageSummary

  function NumberOrNull(v: Raw): Result<Option<real>, Failure> {
    if IsNullish(v) then Ok(None) else if v.Num? then Ok(Some(v.r)) else Err(BadNumber)
  }

  function Percentile(v: Raw): Result<Option<real>, Failure> {
    var n :- NumberOrNull(v);
    if n.Some? && (n.value < 0.0 || n.value > 100.0) then Err(PercentileRange) else Ok(n)
  }

  // ---- rows ----

  datatype Dungeon = Dungeon(
    dungeonSlug: string,
    dungeonName: string,
    encounterId: Option<real>,
    bestParsePercentile: Option<real>,
    medianParsePercentile: Option<real>,
    loggedRunCount: Option<real>,
    specialization: Option<string>,
    keystoneLevel: Option<real>,
    bestDps: Option<real>)

  const UNKNOWN: string := "unknown"

  /** `normalizeDungeon`, with its checks in their order. */
  function NormalizeDungeon(host: Host, raw: Raw): Result<Dungeon, Failure> {
    if !raw.Obj? then Err(NotARecord)
    else
      var slug, name := Get(raw.fields, DungeonSlug), Get(raw.fields, DungeonName);
      if !slug.Str? || slug.s == "" then Err(BadSlug)
      else if host.lower(slug.s) == UNKNOWN then Err(UnknownSlug)
      else if !name.Str? || name.s == "" then Err(BadName)
      else if host.lower(name.s) == UNKNOWN then Err(UnknownName)
      else
        var encounter := Get(raw.fields, EncounterId);
        if !IsNullish(encounter) && !(encounter.Num? && encounter.r > 0.0) then Err(BadEncounter)
        else
          var best :- Percentile(Get(raw.fields, BestParsePercentile));
          var median :- Percentile(Get(raw.fields, MedianParsePercentile));
          if best.None? && median.None? then Err(NoPercentile)
          else
            var runs :- NumberOrNull(Get(raw.fields, LoggedRunCount));
            if runs.Some? && runs.value < 0.0 then Err(NegativeRuns)
            else
              var dps :- NumberOrNull(Get(raw.fields, BestDps));
              if dps.Some? && dps.value < 0.0 then Err(NegativeDps)
              else
                var spec := Get(raw.fields, Specialization);
                if !IsNullish(spec) && !spec.Str? then Err(BadSpecialization)
                else
                  var keystone :- NumberOrNull(Get(raw.fields, KeystoneLevel));
                  Ok(Dungeon(slug.s, name.s, if encounter.Num? then Some(encounter.r) else None, best, median, runs,
                             if spec.Str? then Some(spec.s) else None, keystone, dps))
  }

  /** What an accepted row satisfies. */
  predicate ValidDungeon(host: Host, d: Dungeon) {
    && d.dungeonSlug != "" && host.lower(d.dungeonSlug) != UNKNOWN
    && d.dungeonName != "" && host.lower(d.dungeonName) != UNKNOWN
    && (d.encounterId.Some? ==> d.encounterId.value > 0.0)
    && (d.bestParsePercentile.Some? ==> 0.0 <= d.bestParsePercentile.value <= 100.0)
    && (d.medianParsePercentile.Some? ==> 0.0 <= d.medianParsePercentile.value <= 100.0)
    && (d.bestParsePercentile.Some? || d.medianParsePercentile.Some?)
    && (d.loggedRunCount.Some? ==> d.loggedRunCount.value >= 0.0)
    && (d.bestDps.Some? ==> d.bestDps.value >= 0.0)
  }

  function NumberValue(n: Option<real>): Raw {
    if n.Some? then Num(n.value) else Null
  }

  function TextValue(s: Option<string>): Raw {
    if s.Some? then Str(s.value) else Null
  }

  /** The row as the object it is in JavaScript. */
  function DungeonValue(d: Dungeon): Raw {
    Obj(map[
      DungeonSlug := Str(d.dungeonSlug),
      DungeonName := Str(d.dungeonName),
      EncounterId := NumberValue(d.encounterId),
      BestParsePercentile := NumberValue(d.bestParsePercentile),
      MedianParsePercentile := NumberValue(d.medianParsePercentile),
      LoggedRunCount := NumberValue(d.loggedRunCount),
      Specialization := TextValue(d.specialization),
      KeystoneLevel := NumberValue(d.keystoneLevel),
      BestDps := NumberValue(d.bestDps)])
  }

  lemma NormalizedIsValid(host: Host, raw: Raw)
    requires NormalizeDungeon(host, raw).Ok?
    ensures ValidDungeon(host, NormalizeDungeon(host, raw).value)
  {
  }

  lemma DungeonFields(d: Dungeon)
    ensures var fields := DungeonValue(d).fields;
            && Get(fields, DungeonSlug) == Str(d.dungeonSlug) && Get(fields, DungeonName) == Str(d.dungeonName)
            && Get(fields, EncounterId) == NumberValue(d.encounterId)
            && Get(fields, BestParsePercentile) == NumberValue(d.bestParsePercentile)
            && Get(fields, MedianParsePercentile) == NumberValue(d.medianParsePercentile)
            && Get(fields, LoggedRunCount) == NumberValue(d.loggedRunCount)
            && Get(fields, Specialization) == TextValue(d.specialization)
            && Get(fields, KeystoneLevel) == NumberValue(d.keystoneLevel)
            && Get(fields, BestDps) == NumberValue(d.bestDps)
  {
  }

  lemma NumberRoundTrip(n: Option<real>)
    ensures NumberOrNull(NumberValue(n)) == Ok(n)
    ensures Percentile(NumberValue(n)) == Ok(n) <==> (n.Some? ==> 0.0 <= n.value <= 100.0)
  {
  }

  /** Validation accepts its own output unchanged, and of typed rows exactly the valid ones. */
  lemma NormalizeRoundTrip(host: Host, d: Dungeon)
    ensures NormalizeDungeon(host, DungeonValue(d)) == Ok(d) <==> ValidDungeon(host, d)
  {
    DungeonFields(d);
    NumberRoundTrip(d.bestParsePercentile);
    NumberRoundTrip(d.medianParsePercentile);
    NumberRoundTrip(d.loggedRunCount);
    NumberRoundTrip(d.bestDps);
    NumberRoundTrip(d.keystoneLevel);
    assert DungeonValue(d).Obj?;
    hide Get, DungeonValue, Percentile, NumberOrNull;
  }

  /** `map(normalizeDungeon)`: the first failure wins. */
  function NormalizeAll(host: Host, items: seq<Raw>): Result<seq<Dungeon>, Failure> {
    if items == [] then Ok([])
    else
      var first :- NormalizeDungeon(host, items[0]);
      var rest :- NormalizeAll(host, items[1..]);
      Ok([first] + rest)
  }

  predicate AllValid(host: Host, rows: seq<Dungeon>) {
    forall i :: 0 <= i < |rows| ==> ValidDungeon(host, rows[i])
  }

  function DungeonValues(rows: seq<Dungeon>): seq<Raw> {
    if rows == [] then [] else [DungeonValue(rows[0])] + DungeonValues(rows[1..])
  }

  lemma {:induction false} NormalizeAllValid(host: Host, items: seq<Raw>)
    requires NormalizeAll(host, items).Ok?
    ensures AllValid(host, NormalizeAll(host, items).value)
  {
    if items != [] {
      NormalizedIsValid(host, items[0]);
      NormalizeAllValid(host, items[1..]);
    }
    hide NormalizeDungeon, ValidDungeon;
  }

  lemma {:induction false} NormalizeAllRoundTrip(host: Host, rows: seq<Dungeon>)
    requires AllValid(host, rows)
    ensures NormalizeAll(host, DungeonValues(rows)) == Ok(rows)
  {
    if rows != [] {
      NormalizeRoundTrip(host, rows[0]);
      NormalizeAllRoundTrip(host, rows[1..]);
      assert DungeonValues(rows)[0] == DungeonValue(rows[0]);
      assert DungeonValues(rows)[1..] == DungeonValues(rows[1..]);
      assert [rows[0]] + rows[1..] == rows;
    }
    hide NormalizeDungeon, ValidDungeon, DungeonValue;
  }

  // ---- order and keys ----

  function EncounterRank(d: Dungeon): real {
    d.encounterId.GetOr(-1.0)
  }

  function CompareRows(host: Host, a: Dungeon, b: Dungeon): int {
    var slug := host.localeCompare(a.dungeonSlug, b.dungeonSlug);
    if slug != 0 then slug
    else if EncounterRank(a) < EncounterRank(b) then -1
    else if EncounterRank(a) > EncounterRank(b) then 1
    else host.localeCompare(a.specialization.GetOr(""), b.specialization.GetOr(""))
  }

  function RowLe(host: Host): (Dungeon, Dungeon) -> bool {
    (a, b) => CompareRows(host, a, b) <= 0
  }

  lemma CompareRowsTransitive(host: Host, a: Dungeon, b: Dungeon, c: Dungeon)
    requires IsLocaleOrder(host.localeCompare) && CompareRows(host, a, b) <= 0 && CompareRows(host, b, c) <= 0
    ensures CompareRows(host, a, c) <= 0
  {
    var x, y, z := a.dungeonSlug, b.dungeonSlug, c.dungeonSlug;
    assert host.localeCompare(x, y) <= 0 && host.localeCompare(y, z) <= 0;
    assert host.localeCompare(x, z) <= 0;
    if host.localeCompare(x, z) == 0 {
      assert host.localeCompare(z, x) <= 0;
      assert host.localeCompare(z, y) <= 0 && host.localeCompare(y, x) <= 0;
    }
  }

  lemma RowOrder(host: Host)
    requires IsLocaleOrder(host.localeCompare)
    ensures TotalPreorder(RowLe(host))
  {
    var le := RowLe(host);
    forall x, y
      ensures le(x, y) || le(y, x)
    {
    }
    forall x, y, z | le(x, y) && le(y, z)
      ensures le(x, z)
    {
      CompareRowsTransitive(host, x, y, z);
    }
  }

  /** By slug, then by encounter, a missing one counting as -1, then by specialization, a missing one being empty. */
  predicate RowBefore(host: Host, a: Dungeon, b: Dungeon) {
    var slugs := host.localeCompare(a.dungeonSlug, b.dungeonSlug);
    var x := if a.encounterId.Some? then a.encounterId.value else -1.0;
    var y := if b.encounterId.Some? then b.encounterId.value else -1.0;
    var s := if a.specialization.Some? then a.specialization.value else "";
    var t := if b.specialization.Some? then b.specialization.value else "";
    slugs < 0 || (slugs == 0 && (x < y || (x == y && host.localeCompare(s, t) <= 0)))
  }

  lemma RowLeExactly(host: Host, a: Dungeon, b: Dungeon)
    ensures RowLe(host)(a, b) <==> RowBefore(host, a, b)
  {
  }

  /** Of valid rows of one slug, one without an encounter comes first. */
  lemma MissingEncounterFirst(host: Host, a: Dungeon, b: Dungeon)
    requires ValidDungeon(host, b) && host.localeCompare(a.dungeonSlug, b.dungeonSlug) == 0
    requires a.encounterId.None? && b.encounterId.Some?
    ensures RowBefore(host, a, b) && (host.localeCompare(b.dungeonSlug, a.dungeonSlug) == 0 ==> !RowBefore(host, b, a))
  {
  }

  function EncounterText(host: Host, d: Dungeon): string {
    if d.encounterId.Some? then host.numbers.text(d.encounterId.value) else "null"
  }

  /** The text that identifies a row in the `seen` set. */
  function RowKey(host: Host, d: Dungeon): string {
    d.dungeonSlug + "::" + EncounterText(host, d) + "::" + d.specialization.GetOr("null")
  }

  predicate HoldsDouble(host: Host, d: Dungeon) {
    d.encounterId.Some? ==> d.encounterId.value in host.numbers.doubles
  }

  function SpecText(d: Dungeon): string {
    d.specialization.GetOr("null")
  }

  lemma EncounterTextExact(host: Host, a: Dungeon, b: Dungeon)
    requires NumberTexts(host) && HoldsDouble(host, a) && HoldsDouble(host, b)
    ensures EncounterText(host, a) != "" && ':' !in EncounterText(host, a)
    ensures EncounterText(host, a) == EncounterText(host, b) <==> a.encounterId == b.encounterId
  {
    assert "null"[0] == 'n' && "null"[1] == 'u' && "null"[2] == 'l' && "null"[3] == 'l';
    assert ':' !in "null";
    if a.encounterId.Some? && b.encounterId.Some? {
      var x, y := a.encounterId.value, b.encounterId.value;
      assert x in host.numbers.doubles && y in host.numbers.doubles;
    } else if a.encounterId.Some? {
      var x := a.encounterId.value;
      assert x in host.numbers.doubles && host.numbers.text(x) !in {"null"};
    } else if b.encounterId.Some? {
      var y := b.encounterId.value;
      assert y in host.numbers.doubles && host.numbers.text(y) !in {"null"};
    }
  }

  /** `a` and `b` begin texts that continue with a separator and a number: where the longer may end. */
  lemma SlugsOverlap(a: string, e: string, x: string, b: string, f: string, y: string)
    requires e != "" && ':' !in e && |a| < |b|
    requires a + "::" + e + "::" + x == b + "::" + f + "::" + y
    ensures |b| >= |a| + 2 + |e| && b[..|a| + 2 + |e|] == a + "::" + e
  {
    var s, n := a + "::" + e + "::" + x, |a|;
    assert s[..n] == a && s[n] == ':' && s[n + 1] == ':' && s[n + 2] == e[0];
    assert s[n + 2..n + 2 + |e|] == e;
    assert s[|b|] == ':' && s[|b| + 1] == ':';
    assert s[..|b|] == b;
    assert forall i :: n + 2 <= i < n + 2 + |e| ==> s[i] == e[i - n - 2];
    assert s[..n + 2 + |e|] == a + "::" + e;
  }

  lemma PartsEqual(a: string, e: string, x: string, b: string, f: string, y: string)
    requires ':' !in e && ':' !in f && |a| == |b|
    ensures a + "::" + e + "::" + x == b + "::" + f + "::" + y <==> a == b && e == f && x == y
  {
    var s, t := a + "::" + e + "::" + x, b + "::" + f + "::" + y;
    var n := |a| + 2;
    assert s[..|a|] == a && t[..|b|] == b;
    assert s[n..] == e + "::" + x && t[n..] == f + "::" + y;
    if s == t {
      SameHead(e, x, f, y);
    }
  }

  lemma SameHead(e: string, x: string, f: string, y: string)
    requires ':' !in e && ':' !in f && e + "::" + x == f + "::" + y
    ensures e == f && x == y
  {
    var s := e + "::" + x;
    assert s[|e|] == ':' && s[|f|] == ':';
    assert forall i :: 0 <= i < |e| ==> s[i] == e[i];
    assert forall i :: 0 <= i < |f| ==> s[i] == f[i];
    assert s[..|e|] == e && s[..|f|] == f && s[|e| + 2..] == x && s[|f| + 2..] == y;
  }

  /**
    The longer slug holds the shorter one, the separator and its encounter, and the rest falls into the specialization.
   */
  predicate SlugSwallows(host: Host, a: Dungeon, b: Dungeon) {
    var head := a.dungeonSlug + "::" + EncounterText(host, a);
    && |head| <= |b.dungeonSlug| && b.dungeonSlug[..|head|] == head
    && "::" + SpecText(a) == b.dungeonSlug[|head|..] + "::" + EncounterText(host, b) + "::" + SpecText(b)
  }

  /**
    Slug and encounter agree, and the specializations agree up to the text `null`, which stands for a missing one too.
   */
  predicate SamePlace(a: Dungeon, b: Dungeon) {
    a.dungeonSlug == b.dungeonSlug && a.encounterId == b.encounterId && SpecText(a) == SpecText(b)
  }

  lemma SwallowedKey(host: Host, a: Dungeon, b: Dungeon)
    requires SlugSwallows(host, a, b)
    ensures RowKey(host, a) == RowKey(host, b)
  {
    var head := a.dungeonSlug + "::" + EncounterText(host, a);
    var tail := b.dungeonSlug[|head|..];
    assert b.dungeonSlug == head + tail;
    hide EncounterText, SpecText;
    calc {
      a.dungeonSlug + "::" + EncounterText(host, a) + "::" + SpecText(a);
      head + ("::" + SpecText(a));
      head + (tail + "::" + EncounterText(host, b) + "::" + SpecText(b));
      (head + tail) + "::" + EncounterText(host, b) + "::" + SpecText(b);
    }
  }

  lemma KeySwallows(host: Host, a: Dungeon, b: Dungeon)
    requires NumberTexts(host) && HoldsDouble(host, a) && HoldsDouble(host, b)
    requires |a.dungeonSlug| < |b.dungeonSlug| && RowKey(host, a) == RowKey(host, b)
    ensures SlugSwallows(host, a, b)
  {
    EncounterTextExact(host, a, b);
    var e, f, x, y := EncounterText(host, a), EncounterText(host, b), SpecText(a), SpecText(b);
    hide EncounterText, SpecText, NumberTexts, HoldsDouble;
    SlugsOverlap(a.dungeonSlug, e, x, b.dungeonSlug, f, y);
    var head := a.dungeonSlug + "::" + e;
    var key := head + "::" + x;
    assert key[|head|..] == "::" + x;
    assert (b.dungeonSlug + "::" + f + "::" + y)[|head|..] == b.dungeonSlug[|head|..] + "::" + f + "::" + y;
  }

  /** Two rows share a key exactly when they are of the same place, or the longer slug swallows the shorter. */
  lemma KeysAgreeExactly(host: Host, a: Dungeon, b: Dungeon)
    requires NumberTexts(host) && HoldsDouble(host, a) && HoldsDouble(host, b)
    ensures RowKey(host, a) == RowKey(host, b) <==>
      SamePlace(a, b) || SlugSwallows(host, a, b) || SlugSwallows(host, b, a)
  {
    EncounterTextExact(host, a, b);
    EncounterTextExact(host, b, a);
    if |a.dungeonSlug| == |b.dungeonSlug| {
      PartsEqual(a.dungeonSlug, EncounterText(host, a), SpecText(a), b.dungeonSlug, EncounterText(host, b),
                 SpecText(b));
    } else if RowKey(host, a) == RowKey(host, b) {
      if |a.dungeonSlug| < |b.dungeonSlug| {
        KeySwallows(host, a, b);
      } else {
        KeySwallows(host, b, a);
      }
    }
    hide EncounterText, SpecText, NumberTexts, HoldsDouble;
    if SlugSwallows(host, a, b) {
      SwallowedKey(host, a, b);
    }
    if SlugSwallows(host, b, a) {
      SwallowedKey(host, b, a);
    }
  }

  /** No two colons in a row. */
  predicate NoDoubleColon(s: string) {
    forall i :: 0 <= i < |s| - 1 ==> !(s[i] == ':' && s[i + 1] == ':')
  }

  /** Without the separator in a slug, rows share a key exactly when they are of the same place. */
  lemma PlainKeysAgreeExactly(host: Host, a: Dungeon, b: Dungeon)
    requires NumberTexts(host) && HoldsDouble(host, a) && HoldsDouble(host, b)
    requires NoDoubleColon(a.dungeonSlug) && NoDoubleColon(b.dungeonSlug)
    ensures RowKey(host, a) == RowKey(host, b) <==> SamePlace(a, b)
  {
    KeysAgreeExactly(host, a, b);
    SwallowerHoldsSeparator(host, a, b);
    SwallowerHoldsSeparator(host, b, a);
    hide SlugSwallows, NoDoubleColon, RowKey, SamePlace, NumberTexts;
  }

  lemma SwallowerHoldsSeparator(host: Host, a: Dungeon, b: Dungeon)
    ensures SlugSwallows(host, a, b) ==> !NoDoubleColon(b.dungeonSlug)
  {
    if SlugSwallows(host, a, b) {
      var n := |a.dungeonSlug|;
      var head := a.dungeonSlug + "::" + EncounterText(host, a);
      assert head[n] == ':' && head[n + 1] == ':';
      assert b.dungeonSlug[n] == ':' && b.dungeonSlug[n + 1] == ':';
    }
    hide EncounterText, SpecText;
  }

  /** Two rows that differ in all three parts and still share a key, because a slug holds the separator. */
  lemma SeparatorInSlugCollides(host: Host, a: Dungeon, b: Dungeon)
    requires a.dungeonSlug == "x::" + EncounterText(host, b) + "::y" && a.encounterId == None &&
      a.specialization == None
    requires b.dungeonSlug == "x" && b.specialization == Some("y::null::null")
    ensures RowKey(host, a) == RowKey(host, b) && a.dungeonSlug != b.dungeonSlug
  {
  }

  /** A missing specialization and the specialization named `null` share a key. */
  lemma NullSpecializationCollides(host: Host, d: Dungeon)
    ensures RowKey(host, d.(specialization := None)) == RowKey(host, d.(specialization := Some("null")))
  {
  }

  // ---- deduplication ----

  /** The rows of `rows` whose key is not in `seen` and not the key of an earlier row. */
  function FirstOfEach(host: Host, rows: seq<Dungeon>, seen: set<string>): seq<Dungeon> {
    if rows == [] then []
    else if RowKey(host, rows[0]) in seen then FirstOfEach(host, rows[1..], seen)
    else [rows[0]] + FirstOfEach(host, rows[1..], seen + {RowKey(host, rows[0])})
  }

  function Dedupe(host: Host, rows: seq<Dungeon>): seq<Dungeon> {
    FirstOfEach(host, Sort(RowLe(host), rows), {})
  }

  /** `dedupeDungeonAggregates` as it runs: one pass over the sorted rows with the set of seen keys. */
  method DedupeDungeonAggregates(host: Host, rows: seq<Dungeon>) returns (out: seq<Dungeon>)
    ensures out == Dedupe(host, rows)
  {
    var sorted := Sort(RowLe(host), rows);
    var seen: set<string> := {};
    out := [];
    for i := 0 to |sorted|
      invariant out + FirstOfEach(host, sorted[i..], seen) == Dedupe(host, rows)
    {
      var key := RowKey(host, sorted[i]);
      assert sorted[i..][1..] == sorted[i + 1..];
      if key !in seen {
        seen := seen + {key};
        out := out + [sorted[i]];
      }
    }
    assert sorted[|sorted|..] == [];
  }

  /** `kept` is `rows` with some elements left out. */
  predicate Subsequence(kept: seq<Dungeon>, rows: seq<Dungeon>) {
    if kept == [] then true
    else rows != [] && (if kept[0] == rows[0] then Subsequence(kept[1..], rows[1..]) else Subsequence(kept, rows[1..]))
  }

  lemma {:induction false} SortedSubsequence(host: Host, kept: seq<Dungeon>, rows: seq<Dungeon>)
    requires Sorted(RowLe(host), rows) && Subsequence(kept, rows)
    ensures Sorted(RowLe(host), kept)
    ensures forall d :: d in kept ==> d in rows
  {
    if kept != [] {
      var le := RowLe(host);
      if kept[0] == rows[0] {
        SortedSubsequence(host, kept[1..], rows[1..]);
        assert kept == [kept[0]] + kept[1..] && rows == [rows[0]] + rows[1..];
        forall i, j | 0 <= i < j < |kept|
          ensures le(kept[i], kept[j])
        {
          if i == 0 {
            assert kept[j] in kept[1..] && kept[j] in rows[1..];
          } else {
            assert le(kept[1..][i - 1], kept[1..][j - 1]);
          }
        }
      } else {
        SortedSubsequence(host, kept, rows[1..]);
      }
    }
  }

  lemma {:induction false} FirstOfEachSubsequence(host: Host, rows: seq<Dungeon>, seen: set<string>)
    ensures Subsequence(FirstOfEach(host, rows, seen), rows)
  {
    if rows != [] {
      var key := RowKey(host, rows[0]);
      if key in seen {
        FirstOfEachSubsequence(host, rows[1..], seen);
        SubsequenceOfMore(FirstOfEach(host, rows[1..], seen), rows);
      } else {
        FirstOfEachSubsequence(host, rows[1..], seen + {key});
      }
    }
  }

  lemma {:induction false} SubsequenceOfMore(kept: seq<Dungeon>, rows: seq<Dungeon>)
    requires rows != [] && Subsequence(kept, rows[1..])
    ensures Subsequence(kept, rows)
  {
    if kept != [] && kept[0] == rows[0] {
      DropFirst(kept, rows[1..]);
    }
  }

  lemma {:induction false} DropFirst(kept: seq<Dungeon>, rows: seq<Dungeon>)
    requires kept != [] && Subsequence(kept, rows)
    ensures Subsequence(kept[1..], rows)
  {
    if kept[0] == rows[0] {
      SubsequenceOfMore(kept[1..], rows);
    } else {
      DropFirst(kept, rows[1..]);
      SubsequenceOfMore(kept[1..], rows);
    }
  }

  ghost predicate DistinctOutside(host: Host, rows: seq<Dungeon>, seen: set<string>) {
    && (forall i :: 0 <= i < |rows| ==> RowKey(host, rows[i]) !in seen)
    && (forall i, j :: 0 <= i < j < |rows| ==> RowKey(host, rows[i]) != RowKey(host, rows[j]))
  }

  /** The rows kept have distinct keys, none of them in `seen`. */
  lemma {:induction false} FirstOfEachDistinct(host: Host, rows: seq<Dungeon>, seen: set<string>)
    ensures DistinctOutside(host, FirstOfEach(host, rows, seen), seen)
  {
    if rows != [] {
      hide RowKey;
      var key := RowKey(host, rows[0]);
      if key in seen {
        FirstOfEachDistinct(host, rows[1..], seen);
      } else {
        FirstOfEachDistinct(host, rows[1..], seen + {key});
        ConsDistinct(host, rows[0], FirstOfEach(host, rows[1..], seen + {key}), seen);
      }
    }
  }

  lemma ConsDistinct(host: Host, d: Dungeon, rest: seq<Dungeon>, seen: set<string>)
    requires RowKey(host, d) !in seen && DistinctOutside(host, rest, seen + {RowKey(host, d)})
    ensures DistinctOutside(host, [d] + rest, seen)
  {
    hide RowKey;
    var all := [d] + rest;
    assert forall i :: 0 < i < |all| ==> all[i] == rest[i - 1];
  }

  /** Nothing is dropped when no key repeats. */
  lemma {:induction false} FirstOfEachOfDistinct(host: Host, rows: seq<Dungeon>, seen: set<string>)
    requires DistinctOutside(host, rows, seen)
    ensures FirstOfEach(host, rows, seen) == rows
  {
    if rows != [] {
      var key := RowKey(host, rows[0]);
      assert key !in seen;
      assert FirstOfEach(host, rows, seen) == [rows[0]] + FirstOfEach(host, rows[1..], seen + {key});
      assert DistinctOutside(host, rows[1..], seen + {key}) by {
        hide RowKey, FirstOfEach;
        assert forall i :: 0 < i < |rows| ==> rows[i] == rows[1..][i - 1];
      }
      hide *;
      FirstOfEachOfDistinct(host, rows[1..], seen + {key});
      assert rows == [rows[0]] + rows[1..];
    }
  }

  /** `d` is the first row of its key in `rows`. */
  ghost predicate IsFirstOfKey(host: Host, rows: seq<Dungeon>, d: Dungeon) {
    exists i :: 0 <= i < |rows| && rows[i] == d && forall j :: 0 <= j < i ==> RowKey(host, rows[j]) != RowKey(host, d)
  }

  lemma FirstIsHead(host: Host, rows: seq<Dungeon>, d: Dungeon)
    requires rows != [] && RowKey(host, rows[0]) == RowKey(host, d)
    ensures IsFirstOfKey(host, rows, d) <==> d == rows[0]
  {
    hide RowKey;
  }

  lemma FirstIsLater(host: Host, rows: seq<Dungeon>, d: Dungeon)
    requires rows != [] && RowKey(host, rows[0]) != RowKey(host, d)
    ensures IsFirstOfKey(host, rows, d) <==> IsFirstOfKey(host, rows[1..], d)
  {
    hide RowKey;
    if IsFirstOfKey(host, rows, d) {
      var i :| 0 <= i < |rows| && rows[i] == d && forall j :: 0 <= j < i ==> RowKey(host, rows[j]) != RowKey(host, d);
      assert rows[1..][i - 1] == d;
      assert forall j :: 0 <= j < i - 1 ==> RowKey(host, rows[1..][j]) != RowKey(host, d);
    }
    if IsFirstOfKey(host, rows[1..], d) {
      var i :| 0 <= i < |rows| - 1 && rows[1..][i] == d && forall j :: 0 <= j < i ==>
        RowKey(host, rows[1..][j]) != RowKey(host, d);
      assert rows[i + 1] == d;
      forall j | 0 <= j < i + 1
        ensures RowKey(host, rows[j]) != RowKey(host, d)
      {
        assert j > 0 ==> rows[j] == rows[1..][j - 1];
      }
    }
  }

  /** Exactly the first row of every key outside `seen` is kept. */
  lemma {:induction false} FirstOfEachExactly(host: Host, rows: seq<Dungeon>, seen: set<string>, d: Dungeon)
    ensures d in FirstOfEach(host, rows, seen) <==> RowKey(host, d) !in seen && IsFirstOfKey(host, rows, d)
  {
    if rows != [] {
      hide RowKey, IsFirstOfKey;
      var key := RowKey(host, rows[0]);
      FirstOfEachExactly(host, rows[1..], if key in seen then seen else seen + {key}, d);
      if RowKey(host, d) == key {
        FirstIsHead(host, rows, d);
      } else {
        FirstIsLater(host, rows, d);
      }
    }
  }

  lemma {:induction false} SomeFirst(host: Host, rows: seq<Dungeon>, i: nat) returns (d: Dungeon)
    requires i < |rows|
    ensures IsFirstOfKey(host, rows, d) && RowKey(host, d) == RowKey(host, rows[i])
  {
    hide RowKey;
    var k := 0;
    while RowKey(host, rows[k]) != RowKey(host, rows[i])
      invariant k <= i
      invariant forall j :: 0 <= j < k ==> RowKey(host, rows[j]) != RowKey(host, rows[i])
      decreases i - k
    {
      k := k + 1;
    }
    d := rows[k];
  }

  /** The result is sorted, holds only input rows, and has exactly one row for every key of the input. */
  lemma DedupeOneRowPerKey(host: Host, rows: seq<Dungeon>, key: string)
    requires IsLocaleOrder(host.localeCompare)
    ensures Sorted(RowLe(host), Dedupe(host, rows))
    ensures forall d :: d in Dedupe(host, rows) ==> d in rows
    ensures (exists d :: d in Dedupe(host, rows) && RowKey(host, d) == key) <==>
      (exists d :: d in rows && RowKey(host, d) == key)
    ensures DistinctOutside(host, Dedupe(host, rows), {})
  {
    hide RowKey;
    var sorted := Sort(RowLe(host), rows);
    RowOrder(host);
    SortSorts(RowLe(host), rows);
    FirstOfEachSubsequence(host, sorted, {});
    SortedSubsequence(host, Dedupe(host, rows), sorted);
    FirstOfEachDistinct(host, sorted, {});
    forall d | d in Dedupe(host, rows)
      ensures d in rows
    {
      MemberOfSort(RowLe(host), rows, d);
    }
    if d :| d in rows && RowKey(host, d) == key {
      MemberOfSort(RowLe(host), rows, d);
      var i :| 0 <= i < |sorted| && sorted[i] == d;
      var first := SomeFirst(host, sorted, i);
      FirstOfEachExactly(host, sorted, {}, first);
      assert first in Dedupe(host, rows) && RowKey(host, first) == key;
    }
  }

  /** A second application changes nothing. */
  lemma DedupeIdempotent(host: Host, rows: seq<Dungeon>)
    requires IsLocaleOrder(host.localeCompare)
    ensures Dedupe(host, Dedupe(host, rows)) == Dedupe(host, rows)
  {
    var once := Dedupe(host, rows);
    DedupeOneRowPerKey(host, rows, "");
    RowOrder(host);
    SortOfSorted(RowLe(host), once);
    FirstOfEachDistinct(host, Sort(RowLe(host), rows), {});
    FirstOfEachOfDistinct(host, once, {});
  }

  // ---- the result place by place ----

  /** The places are those of the first rows of each key that is not in `seen`. */
  ghost predicate FirstsAt(host: Host, rows: seq<Dungeon>, seen: set<string>, kept: seq<Dungeon>, places: seq<nat>) {
    && |places| == |kept| && Ascends(places)
    && (forall k :: 0 <= k < |kept| ==> places[k] < |rows| && rows[places[k]] == kept[k])
    && (forall i: nat :: i < |rows| ==> (i in places <==> IsNewAt(host, rows, seen, i)))
  }

  predicate IsNewAt(host: Host, rows: seq<Dungeon>, seen: set<string>, i: nat)
    requires i < |rows|
  {
    RowKey(host, rows[i]) !in seen && forall j :: 0 <= j < i ==> RowKey(host, rows[j]) != RowKey(host, rows[i])
  }

  lemma {:induction false} FirstOfEachAt(host: Host, rows: seq<Dungeon>, seen: set<string>) returns (places: seq<nat>)
    ensures FirstsAt(host, rows, seen, FirstOfEach(host, rows, seen), places)
  {
    hide RowKey;
    if rows == [] {
      places := [];
    } else {
      var key := RowKey(host, rows[0]);
      var more := seen + {key};
      var rest := FirstOfEachAt(host, rows[1..], more);
      assert key in seen ==> more == seen;
      hide FirstsAt, FirstOfEach;
      places := FirstsGrow(host, rows, seen, FirstOfEach(host, rows[1..], more), rest);
    }
  }

  lemma FirstsGrow(host: Host, rows: seq<Dungeon>, seen: set<string>, kept: seq<Dungeon>, rest: seq<nat>)
    returns (places: seq<nat>)
    requires rows != [] && FirstsAt(host, rows[1..], seen + {RowKey(host, rows[0])}, kept, rest)
    ensures FirstsAt(host, rows, seen, if RowKey(host, rows[0]) in seen then kept else [rows[0]] + kept, places)
  {
    var isNew := RowKey(host, rows[0]) !in seen;
    assert IsNewAt(host, rows, seen, 0) <==> isNew;
    NewMembers(host, rows, seen, kept, rest);
    hide RowKey, IsNewAt;
    MovedAscends(rest);
    if isNew {
      places := [0] + Moved(rest);
      forall k | 0 <= k < |places|
        ensures places[k] < |rows| && rows[places[k]] == ([rows[0]] + kept)[k]
      {
        if k > 0 {
          assert rows[1..][rest[k - 1]] == rows[rest[k - 1] + 1];
        }
      }
      assert forall i: nat :: i in places <==> i == 0 || i in Moved(rest);
    } else {
      places := Moved(rest);
      forall k | 0 <= k < |places|
        ensures places[k] < |rows| && rows[places[k]] == kept[k]
      {
        assert rows[1..][rest[k]] == rows[rest[k] + 1];
      }
      MovedExactly(rest, 0);
    }
    hide Moved, Ascends;
  }

  lemma NewMembers(host: Host, rows: seq<Dungeon>, seen: set<string>, kept: seq<Dungeon>, rest: seq<nat>)
    requires rows != [] && FirstsAt(host, rows[1..], seen + {RowKey(host, rows[0])}, kept, rest)
    ensures forall i: nat :: 0 < i < |rows| ==> (i in Moved(rest) <==> IsNewAt(host, rows, seen, i))
  {
    hide RowKey;
    forall i: nat | 0 < i < |rows|
      ensures i in Moved(rest) <==> IsNewAt(host, rows, seen, i)
    {
      MovedExactly(rest, i);
      NewLater(host, rows, seen, i);
    }
    hide IsNewAt, Moved;
  }

  lemma NewLater(host: Host, rows: seq<Dungeon>, seen: set<string>, i: nat)
    requires 0 < i < |rows|
    ensures IsNewAt(host, rows, seen, i) <==> IsNewAt(host, rows[1..], seen + {RowKey(host, rows[0])}, i - 1)
  {
    hide RowKey;
    assert rows[i] == rows[1..][i - 1];
    assert forall j :: 0 < j < i ==> rows[j] == rows[1..][j - 1];
    assert forall j :: 0 <= j < i - 1 ==> rows[1..][j] == rows[j + 1];
  }

  /** `sorted` is `rows` in ascending order, rows that tie keeping theirs. */
  ghost predicate IsStablySorted(host: Host, rows: seq<Dungeon>, sorted: seq<Dungeon>) {
    && (forall i, j :: 0 <= i < j < |sorted| ==> RowBefore(host, sorted[i], sorted[j]))
    && (forall d :: Ties(RowLe(host), d, sorted) == Ties(RowLe(host), d, rows))
  }

  /** What is kept is, place by place, the first row of each key among the stably sorted rows. */
  ghost predicate KeepsFirsts(host: Host, rows: seq<Dungeon>, kept: seq<Dungeon>) {
    exists sorted, places :: IsStablySorted(host, rows, sorted) && FirstsAt(host, sorted, {}, kept, places)
  }

  /** That describes the result completely. */
  lemma DedupeExactly(host: Host, rows: seq<Dungeon>, kept: seq<Dungeon>)
    requires IsLocaleOrder(host.localeCompare)
    ensures KeepsFirsts(host, rows, kept) <==> kept == Dedupe(host, rows)
  {
    var le, s := RowLe(host), Sort(RowLe(host), rows);
    RowOrder(host);
    SortSorts(le, rows);
    forall d
      ensures Ties(le, d, s) == Ties(le, d, rows)
    {
      SortStable(le, rows, d);
    }
    forall i, j | 0 <= i < j < |s|
      ensures RowBefore(host, s[i], s[j])
    {
      RowLeExactly(host, s[i], s[j]);
    }
    var own := FirstOfEachAt(host, s, {});
    assert IsStablySorted(host, rows, s);
    hide RowBefore, CompareRows, RowLe, Sort, FirstOfEach, IsNewAt;
    if sorted, places :| IsStablySorted(host, rows, sorted) && FirstsAt(host, sorted, {}, kept, places) {
      SortedAlike(host, rows, sorted, s);
      FirstsUnique(host, s, {}, kept, places, Dedupe(host, rows), own);
    }
  }

  lemma SortedAlike(host: Host, rows: seq<Dungeon>, a: seq<Dungeon>, b: seq<Dungeon>)
    requires IsLocaleOrder(host.localeCompare) && IsStablySorted(host, rows, a) && IsStablySorted(host, rows, b)
    ensures a == b
  {
    var le := RowLe(host);
    RowOrder(host);
    forall i, j | 0 <= i < j < |a|
      ensures le(a[i], a[j])
    {
      RowLeExactly(host, a[i], a[j]);
    }
    forall i, j | 0 <= i < j < |b|
      ensures le(b[i], b[j])
    {
      RowLeExactly(host, b[i], b[j]);
    }
    hide CompareRows, RowBefore;
    StableSortUnique(le, a, b);
  }

  lemma FirstsUnique(host: Host, rows: seq<Dungeon>, seen: set<string>, kept: seq<Dungeon>, places: seq<nat>,
                     others: seq<Dungeon>, otherPlaces: seq<nat>)
    requires FirstsAt(host, rows, seen, kept, places) && FirstsAt(host, rows, seen, others, otherPlaces)
    ensures kept == others
  {
    hide IsNewAt;
    forall i: nat
      ensures i in places <==> i in otherPlaces
    {
    }
    PlacesUnique(places, otherPlaces);
  }

  // ---- which row of a key survives ----

  /** A row survives exactly when it is the first of its key in the sorted rows, and sorting keeps the order of ties. */
  lemma DedupeKeepsFirstInOrder(host: Host, rows: seq<Dungeon>, d: Dungeon)
    requires IsLocaleOrder(host.localeCompare)
    ensures d in Dedupe(host, rows) <==> IsFirstOfKey(host, Sort(RowLe(host), rows), d)
    ensures Ties(RowLe(host), d, Sort(RowLe(host), rows)) == Ties(RowLe(host), d, rows)
  {
    hide RowKey, CompareRows, FirstOfEach;
    RowOrder(host);
    FirstOfEachExactly(host, Sort(RowLe(host), rows), {}, d);
    SortStable(RowLe(host), rows, d);
  }

  /** Rows whose slug does not hold the separator and whose specialization is not the text `null`. */
  predicate PlainNames(host: Host, rows: seq<Dungeon>) {
    forall i :: 0 <= i < |rows| ==>
      HoldsDouble(host, rows[i]) && NoDoubleColon(rows[i].dungeonSlug) && rows[i].specialization != Some("null")
  }

  function FirstWithKey(host: Host, rows: seq<Dungeon>, key: string): Option<Dungeon> {
    if rows == [] then None
    else if RowKey(host, rows[0]) == key then Some(rows[0])
    else FirstWithKey(host, rows[1..], key)
  }

  lemma {:induction false} FirstWithKeyIsFirst(host: Host, rows: seq<Dungeon>, d: Dungeon)
    ensures FirstWithKey(host, rows, RowKey(host, d)) == Some(d) <==> IsFirstOfKey(host, rows, d)
  {
    if rows != [] {
      hide RowKey, IsFirstOfKey;
      if RowKey(host, rows[0]) == RowKey(host, d) {
        FirstIsHead(host, rows, d);
      } else {
        FirstIsLater(host, rows, d);
        FirstWithKeyIsFirst(host, rows[1..], d);
      }
    }
  }

  lemma {:induction false} FirstAmongTies(host: Host, rows: seq<Dungeon>, d: Dungeon)
    requires forall i :: 0 <= i < |rows| && RowKey(host, rows[i]) == RowKey(host, d)
               ==> RowLe(host)(d, rows[i]) && RowLe(host)(rows[i], d)
    ensures FirstWithKey(host, Ties(RowLe(host), d, rows), RowKey(host, d)) == FirstWithKey(host, rows, RowKey(host, d))
  {
    if rows != [] {
      var le, key := RowLe(host), RowKey(host, d);
      hide RowKey, CompareRows, RowLe;
      FirstAmongTies(host, rows[1..], d);
      var rest := Ties(le, d, rows[1..]);
      var tied := le(d, rows[0]) && le(rows[0], d);
      assert Ties(le, d, rows) == (if tied then [rows[0]] else []) + rest;
      if RowKey(host, rows[0]) == key {
        assert tied;
      } else if tied {
        assert ([rows[0]] + rest)[1..] == rest;
        assert FirstWithKey(host, [rows[0]] + rest, key) == FirstWithKey(host, rest, key);
      } else {
        assert Ties(le, d, rows) == rest;
      }
    }
  }

  lemma SameKeyTies(host: Host, a: Dungeon, b: Dungeon)
    requires IsLocaleOrder(host.localeCompare) && NumberTexts(host) && PlainNames(host, [a, b]) &&
      RowKey(host, a) == RowKey(host, b)
    ensures RowLe(host)(a, b) && RowLe(host)(b, a)
  {
    assert [a, b][0] == a && [a, b][1] == b;
    PlainKeysAgreeExactly(host, a, b);
    assert host.localeCompare(a.dungeonSlug, a.dungeonSlug) == 0;
    var spec := a.specialization.GetOr("");
    assert host.localeCompare(spec, spec) == 0;
  }

  /** For plain names, a row survives exactly when it is the first of its key in the input. */
  lemma DedupeKeepsFirstOfInput(host: Host, rows: seq<Dungeon>, d: Dungeon)
    requires IsLocaleOrder(host.localeCompare) && NumberTexts(host) && PlainNames(host, rows) && PlainNames(host, [d])
    ensures d in Dedupe(host, rows) <==> IsFirstOfKey(host, rows, d)
  {
    hide RowKey, CompareRows;
    var le, sorted := RowLe(host), Sort(RowLe(host), rows);
    RowOrder(host);
    SortStable(le, rows, d);
    FirstOfEachExactly(host, sorted, {}, d);
    FirstWithKeyIsFirst(host, sorted, d);
    FirstWithKeyIsFirst(host, rows, d);
    forall e | e in rows && RowKey(host, e) == RowKey(host, d)
      ensures le(d, e) && le(e, d)
    {
      var i :| 0 <= i < |rows| && rows[i] == e;
      assert [d][0] == d;
      SameKeyTies(host, d, e);
    }
    forall i | 0 <= i < |sorted| && RowKey(host, sorted[i]) == RowKey(host, d)
      ensures le(d, sorted[i]) && le(sorted[i], d)
    {
      MemberOfSort(le, rows, sorted[i]);
    }
    FirstAmongTies(host, rows, d);
    FirstAmongTies(host, sorted, d);
  }
}
