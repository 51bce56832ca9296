/** The recursive redaction of explanation values (packages/contracts/src/explainability-v2.ts). */
module Sanitizer {
  import opened Delimited
  import opened Choices

  /** A JSON value with `undefined`; an object lists its own properties in order. */
  datatype Json =
    | Undefined
    | Null
    | Boolean(b: bool)
    | Number(r: real)
    | Str(s: string)
    | Arr(items: seq<Json>)
    | Obj(entries: seq<Entry>)

  datatype Entry = Entry(key: string, value: Json)

  const MAX_ARRAY: nat := 100
  const TRUNCATED: string := "[truncated]"
  const REDACTED: string := "[redacted]"

  /** Assigning to this property name sets the prototype and creates no property. */
  const PROTO: string := "__proto__"

  // ---- the two patterns ----

  predicate IsLetter(c: char) {
    'a' <= c <= 'z' || 'A' <= c <= 'Z'
  }

  predicate IsDigit(c: char) {
    '0' <= c <= '9'
  }

  /** 12 to 20 letters and digits, with at least one of each. */
  predicate LooksLikeReportCode(s: string) {
    && 12 <= |s| <= 20
    && (forall i :: 0 <= i < |s| ==> IsLetter(s[i]) || IsDigit(s[i]))
    && (exists i :: 0 <= i < |s| && IsLetter(s[i]))
    && (exists i :: 0 <= i < |s| && IsDigit(s[i]))
  }

  /** The key without `_` and `-`, in lower case. */
  function Squeeze(key: string): string {
    if key == "" then ""
    else
      var rest := Squeeze(key[1..]);
      if key[0] == '_' || key[0] == '-' then rest
      else if 'A' <= key[0] <= 'Z' then [key[0] - 'A' + 'a'] + rest
      else [key[0]] + rest
  }

  const REPORT_CODE: string := "reportcode"

  const SENSITIVE_WORDS: seq<string> := [
    REPORT_CODE, "accesstoken", "refreshtoken", "authorization", "battletag", "linkedcharacter", "rawevent",
    "rawpayload", "rawartifact", "unlisted", "manifestcontenthash", "inputfingerprint", "scoremodelid", "manifestid"]

  predicate IsSensitive(key: string) {
    exists i :: 0 <= i < |SENSITIVE_WORDS| && Contains(Squeeze(key), SENSITIVE_WORDS[i])
  }

  predicate IsReportCodeKey(key: string) {
    Contains(Squeeze(key), REPORT_CODE)
  }

  // ---- the walk ----

  /** What stands in for the value of a sensitive key. */
  function Mask(key: string, strip: bool): Json {
    if strip || IsReportCodeKey(key) then Null else Str(REDACTED)
  }

  /** `sanitizeWalk`. */
  function Walk(v: Json, strip: bool, maxDepth: int, depth: nat): Json
    decreases v
  {
    if depth > maxDepth then Str(TRUNCATED)
    else match v
      case Str(s) => if strip && LooksLikeReportCode(s) then Str(REDACTED) else v
      case Arr(items) =>
        var n := if |items| <= MAX_ARRAY then |items| else MAX_ARRAY;
        Arr(seq(n, i requires 0 <= i < n => Walk(items[i], strip, maxDepth, depth + 1)))
      case Obj(entries) => Obj(WalkEntries(entries, strip, maxDepth, depth))
      case _ => v
  }

  function WalkEntries(entries: seq<Entry>, strip: bool, maxDepth: int, depth: nat): seq<Entry>
    decreases entries
  {
    if entries == [] then []
    else WalkEntry(entries[0], strip, maxDepth, depth) + WalkEntries(entries[1..], strip, maxDepth, depth)
  }

  /** What one property leaves behind: a masked or a walked property, or none. */
  function WalkEntry(e: Entry, strip: bool, maxDepth: int, depth: nat): (out: seq<Entry>)
    decreases e
  {
    if IsSensitive(e.key) then [Entry(e.key, Mask(e.key, strip))]
    else
      var value := Walk(e.value, strip, maxDepth, depth + 1);
      if e.key == PROTO then [] else [Entry(e.key, value)]
  }

  /** `sanitizeWalk` as it runs. */
  method SanitizeWalk(value: Json, strip: bool, maxDepth: int, depth: nat) returns (r: Json)
    ensures r == Walk(value, strip, maxDepth, depth)
    decreases value
  {
    hide IsSensitive, LooksLikeReportCode, WalkEntries;
    if depth > maxDepth {
      r := Str(TRUNCATED);
    } else if value.Str? && strip && LooksLikeReportCode(value.s) {
      r := Str(REDACTED);
    } else if value.Arr? {
      var items := SanitizeItems(value.items, strip, maxDepth, depth);
      r := Arr(items);
    } else if value.Obj? {
      var out := SanitizeEntries(value.entries, strip, maxDepth, depth);
      r := Obj(out);
    } else {
      r := value;
    }
  }

  method SanitizeItems(items: seq<Json>, strip: bool, maxDepth: int, depth: nat) returns (out: seq<Json>)
    requires depth <= maxDepth
    ensures Arr(out) == Walk(Arr(items), strip, maxDepth, depth)
    decreases items
  {
    hide IsSensitive, LooksLikeReportCode, WalkEntries;
    var n := if |items| <= MAX_ARRAY then |items| else MAX_ARRAY;
    out := [];
    for i := 0 to n
      invariant |out| == i
      invariant forall k :: 0 <= k < i ==> out[k] == Walk(items[k], strip, maxDepth, depth + 1)
    {
      var item := SanitizeWalk(items[i], strip, maxDepth, depth + 1);
      out := out + [item];
    }
  }

  method SanitizeEntries(entries: seq<Entry>, strip: bool, maxDepth: int, depth: nat) returns (out: seq<Entry>)
    ensures out == WalkEntries(entries, strip, maxDepth, depth)
    decreases entries
  {
    hide WalkEntry;
    out := [];
    for i := 0 to |entries|
      invariant out + WalkEntries(entries[i..], strip, maxDepth, depth) == WalkEntries(entries, strip, maxDepth, depth)
    {
      var own := SanitizeEntry(entries[i], strip, maxDepth, depth);
      assert entries[i..][1..] == entries[i + 1..];
      out := out + own;
    }
    assert entries[|entries|..] == [];
  }

  /** The body of the loop over the properties. */
  method SanitizeEntry(e: Entry, strip: bool, maxDepth: int, depth: nat) returns (own: seq<Entry>)
    ensures own == WalkEntry(e, strip, maxDepth, depth)
    decreases e
  {
    hide IsSensitive, Walk, Mask;
    if IsSensitive(e.key) {
      return [Entry(e.key, Mask(e.key, strip))];
    }
    var child := SanitizeWalk(e.value, strip, maxDepth, depth + 1);
    own := if e.key == PROTO then [] else [Entry(e.key, child)];
  }

  // ---- the output place by place ----

  /** What the walk makes of a value: the same kind of value, with each part in its place. */
  ghost predicate IsWalked(v: Json, strip: bool, maxDepth: int, depth: nat, out: Json)
    decreases v
  {
    if depth > maxDepth then out == Str("[truncated]")
    else match v
      case Str(s) => out == Str(if strip && LooksLikeReportCode(s) then "[redacted]" else s)
      case Arr(items) =>
        && out.Arr? && |out.items| == (if |items| > 100 then 100 else |items|)
        && forall i :: 0 <= i < |out.items| ==> IsWalked(items[i], strip, maxDepth, depth + 1, out.items[i])
      case Obj(entries) =>
        && out.Obj?
        && exists places: seq<nat> ::
             && KeptAt(entries, out.entries, places)
             && forall k :: 0 <= k < |places| ==>
               IsWalkedEntry(entries[places[k]], strip, maxDepth, depth, out.entries[k])
      case _ => out == v
  }

  /** The properties that stay, in order: all but those of the prototype name. */
  ghost predicate KeptAt(entries: seq<Entry>, out: seq<Entry>, places: seq<nat>) {
    && |places| == |out| && Ascends(places)
    && (forall k :: 0 <= k < |places| ==> places[k] < |entries|)
    && (forall i: nat :: i < |entries| ==> (i in places <==> entries[i].key != PROTO))
  }

  ghost predicate IsWalkedEntry(e: Entry, strip: bool, maxDepth: int, depth: nat, out: Entry)
    decreases e
  {
    && out.key == e.key
    && if !IsSensitive(e.key) then IsWalked(e.value, strip, maxDepth, depth + 1, out.value)
       else if strip || Contains(Squeeze(e.key), "reportcode") then out.value == Null
       else out.value == Str("[redacted]")
  }

  // ---- what a sanitized value looks like ----

  /** A value at nesting level `depth` that the walk has nothing to do to. */
  predicate Sanitized(v: Json, strip: bool, maxDepth: int, depth: nat)
    decreases v
  {
    if depth > maxDepth then v == Str(TRUNCATED)
    else match v
      case Str(s) => !(strip && LooksLikeReportCode(s))
      case Arr(items) =>
        |items| <= MAX_ARRAY && forall i :: 0 <= i < |items| ==> Sanitized(items[i], strip, maxDepth, depth + 1)
      case Obj(entries) => forall i :: 0 <= i < |entries| ==> SanitizedEntry(entries[i], strip, maxDepth, depth)
      case _ => true
  }

  predicate SanitizedEntry(e: Entry, strip: bool, maxDepth: int, depth: nat)
    decreases e
  {
    && e.key != PROTO
    && if IsSensitive(e.key) then e.value == Mask(e.key, strip) else Sanitized(e.value, strip, maxDepth, depth + 1)
  }

  lemma RedactedIsNoCode()
    ensures !LooksLikeReportCode(REDACTED)
  {
  }

  lemma TruncatedIsNoCode()
    ensures !LooksLikeReportCode(TRUNCATED)
  {
  }

  lemma {:induction false} SqueezeShortens(key: string)
    ensures |Squeeze(key)| <= |key|
  {
    if key != "" {
      SqueezeShortens(key[1..]);
    }
  }

  lemma ProtoIsPlain(key: string)
    requires IsSensitive(key)
    ensures key != PROTO
  {
    hide Contains;
    var i :| 0 <= i < |SENSITIVE_WORDS| && Contains(Squeeze(key), SENSITIVE_WORDS[i]);
    ContainsFits(Squeeze(key), SENSITIVE_WORDS[i]);
    assert 8 <= |SENSITIVE_WORDS[i]|;
    if |key| == 9 && key[0] == '_' && key[1] == '_' {
      SqueezeShortens(key[1..][1..]);
    }
  }

  /** Every part of the output is what becomes of the part of the input that has its place. */
  lemma {:induction false} WalkedPlaceByPlace(v: Json, strip: bool, maxDepth: int, depth: nat)
    ensures IsWalked(v, strip, maxDepth, depth, Walk(v, strip, maxDepth, depth))
    decreases v
  {
    hide IsSensitive, LooksLikeReportCode, WalkEntries, KeptAt, IsWalkedEntry;
    if depth <= maxDepth {
      if v.Arr? {
        forall i | 0 <= i < |v.items|
          ensures IsWalked(v.items[i], strip, maxDepth, depth + 1, Walk(v.items[i], strip, maxDepth, depth + 1))
        {
          WalkedPlaceByPlace(v.items[i], strip, maxDepth, depth + 1);
        }
      } else if v.Obj? {
        var places := EntriesPlaceByPlace(v.entries, strip, maxDepth, depth);
      }
    }
  }

  lemma {:induction false} EntriesPlaceByPlace(entries: seq<Entry>, strip: bool, maxDepth: int, depth: nat)
    returns (places: seq<nat>)
    ensures PlacedAt(entries, WalkEntries(entries, strip, maxDepth, depth), places, strip, maxDepth, depth)
    decreases entries
  {
    if entries == [] {
      places := [];
    } else {
      var own, tail := WalkEntry(entries[0], strip, maxDepth, depth), WalkEntries(entries[1..], strip, maxDepth, depth);
      assert WalkEntries(entries, strip, maxDepth, depth) == own + tail;
      EntryPlaced(entries[0], strip, maxDepth, depth);
      hide WalkEntry, WalkEntries, IsWalkedEntry, PlacedAt;
      var rest := EntriesPlaceByPlace(entries[1..], strip, maxDepth, depth);
      places := PlacedGrow(entries, own, tail, rest, strip, maxDepth, depth);
    }
  }

  ghost predicate PlacedAt(entries: seq<Entry>, out: seq<Entry>, places: seq<nat>, strip: bool, maxDepth: int,
                           depth: nat)
  {
    && KeptAt(entries, out, places)
    && forall k :: 0 <= k < |places| ==> IsWalkedEntry(entries[places[k]], strip, maxDepth, depth, out[k])
  }

  lemma PlacedGrow(entries: seq<Entry>, own: seq<Entry>, tail: seq<Entry>, rest: seq<nat>, strip: bool, maxDepth: int,
                   depth: nat)
    returns (places: seq<nat>)
    requires entries != [] && PlacedAt(entries[1..], tail, rest, strip, maxDepth, depth)
    requires |own| <= 1 && (own == [] <==> entries[0].key == PROTO)
    requires own != [] ==> IsWalkedEntry(entries[0], strip, maxDepth, depth, own[0])
    ensures PlacedAt(entries, own + tail, places, strip, maxDepth, depth)
  {
    places := PlacesGrow(entries, own, tail, rest);
    assert |rest| == |tail| && |places| == |own + tail|;
    assert forall k :: 0 <= k < |rest| ==> rest[k] < |entries[1..]|;
    hide KeptAt, IsWalkedEntry, PROTO;
    forall k | 0 <= k < |places|
      ensures IsWalkedEntry(entries[places[k]], strip, maxDepth, depth, (own + tail)[k])
    {
      if k >= |own| {
        var m := k - |own|;
        assert places[|own| + m] == rest[m] + 1 && entries[1..][rest[m]] == entries[rest[m] + 1];
        assert (own + tail)[k] == tail[m];
      } else {
        assert places[0] == 0 && (own + tail)[0] == own[0];
      }
    }
  }

  lemma EntryPlaced(e: Entry, strip: bool, maxDepth: int, depth: nat)
    ensures var own := WalkEntry(e, strip, maxDepth, depth);
      && (own == [] <==> e.key == PROTO) && |own| <= 1
      && (own != [] ==> IsWalkedEntry(e, strip, maxDepth, depth, own[0]))
    decreases e
  {
    if IsSensitive(e.key) {
      ProtoIsPlain(e.key);
    } else {
      WalkedPlaceByPlace(e.value, strip, maxDepth, depth + 1);
    }
    hide IsSensitive, Walk, IsWalked, Contains, Squeeze;
  }

  lemma PlacesGrow(entries: seq<Entry>, own: seq<Entry>, tail: seq<Entry>, rest: seq<nat>) returns (places: seq<nat>)
    requires entries != [] && KeptAt(entries[1..], tail, rest)
    requires |own| <= 1 && (own == [] <==> entries[0].key == PROTO)
    ensures KeptAt(entries, own + tail, places)
    ensures own != [] ==> places[0] == 0
    ensures |places| == |own| + |rest| && forall k :: 0 <= k < |rest| ==> places[|own| + k] == rest[k] + 1
  {
    MovedAscends(rest);
    places := (if own == [] then [] else [0]) + Moved(rest);
    assert own == [] ==> places == Moved(rest);
    forall i: nat | i < |entries|
      ensures i in places <==> entries[i].key != PROTO
    {
      MovedExactly(rest, i);
      assert i in places <==> (own != [] && i == 0) || i in Moved(rest);
      assert i > 0 ==> entries[i] == entries[1..][i - 1];
    }
    hide Moved, Ascends, PROTO;
  }

  lemma {:induction false} WalkSanitizes(v: Json, strip: bool, maxDepth: int, depth: nat)
    ensures Sanitized(Walk(v, strip, maxDepth, depth), strip, maxDepth, depth)
    decreases v
  {
    RedactedIsNoCode();
    hide IsSensitive, LooksLikeReportCode, WalkEntries;
    if depth <= maxDepth {
      if v.Arr? {
        var r := Walk(v, strip, maxDepth, depth);
        forall i | 0 <= i < |r.items| ensures Sanitized(r.items[i], strip, maxDepth, depth + 1) {
          WalkSanitizes(v.items[i], strip, maxDepth, depth + 1);
        }
      } else if v.Obj? {
        var out := WalkEntries(v.entries, strip, maxDepth, depth);
        EntriesSanitized(v.entries, strip, maxDepth, depth, out);
        assert Walk(v, strip, maxDepth, depth) == Obj(out);
      }
    }
  }

  lemma {:induction false} EntriesSanitized(entries: seq<Entry>, strip: bool, maxDepth: int, depth: nat,
                                            out: seq<Entry>)
    requires out == WalkEntries(entries, strip, maxDepth, depth)
    ensures forall i :: 0 <= i < |out| ==> SanitizedEntry(out[i], strip, maxDepth, depth)
    decreases entries
  {
    if entries != [] {
      var own, rest := WalkEntry(entries[0], strip, maxDepth, depth), WalkEntries(entries[1..], strip, maxDepth, depth);
      assert out == own + rest;
      hide *;
      EntrySanitized(entries[0], strip, maxDepth, depth, own);
      EntriesSanitized(entries[1..], strip, maxDepth, depth, rest);
    }
  }

  lemma EntrySanitized(e: Entry, strip: bool, maxDepth: int, depth: nat, own: seq<Entry>)
    requires own == WalkEntry(e, strip, maxDepth, depth)
    ensures forall i :: 0 <= i < |own| ==> SanitizedEntry(own[i], strip, maxDepth, depth)
    decreases e
  {
    hide IsSensitive, Walk, Mask, Sanitized;
    if IsSensitive(e.key) {
      ProtoIsPlain(e.key);
    } else {
      WalkSanitizes(e.value, strip, maxDepth, depth + 1);
    }
  }

  lemma {:induction false} SanitizedIsFixed(v: Json, strip: bool, maxDepth: int, depth: nat)
    requires Sanitized(v, strip, maxDepth, depth)
    ensures Walk(v, strip, maxDepth, depth) == v
    decreases v
  {
    hide IsSensitive, LooksLikeReportCode, WalkEntries;
    if depth <= maxDepth {
      if v.Arr? {
        forall i | 0 <= i < |v.items| ensures Walk(v.items[i], strip, maxDepth, depth + 1) == v.items[i] {
          SanitizedIsFixed(v.items[i], strip, maxDepth, depth + 1);
        }
      } else if v.Obj? {
        EntriesFixed(v.entries, strip, maxDepth, depth);
      }
    }
  }

  lemma {:induction false} EntriesFixed(entries: seq<Entry>, strip: bool, maxDepth: int, depth: nat)
    requires forall i :: 0 <= i < |entries| ==> SanitizedEntry(entries[i], strip, maxDepth, depth)
    ensures WalkEntries(entries, strip, maxDepth, depth) == entries
    decreases entries
  {
    hide IsSensitive, LooksLikeReportCode, Walk, Mask, Sanitized;
    if entries != [] {
      EntriesFixed(entries[1..], strip, maxDepth, depth);
      if !IsSensitive(entries[0].key) {
        SanitizedIsFixed(entries[0].value, strip, maxDepth, depth + 1);
      }
      assert entries == [entries[0]] + entries[1..];
    }
  }

  /** The walk leaves alone exactly the sanitized values. */
  lemma UnchangedExactly(v: Json, strip: bool, maxDepth: int, depth: nat)
    ensures Walk(v, strip, maxDepth, depth) == v <==> Sanitized(v, strip, maxDepth, depth)
  {
    hide Walk, Sanitized;
    WalkSanitizes(v, strip, maxDepth, depth);
    if Sanitized(v, strip, maxDepth, depth) {
      SanitizedIsFixed(v, strip, maxDepth, depth);
    }
  }

  /** Sanitizing again changes nothing. */
  lemma WalkIdempotent(v: Json, strip: bool, maxDepth: int, depth: nat)
    ensures Walk(Walk(v, strip, maxDepth, depth), strip, maxDepth, depth) == Walk(v, strip, maxDepth, depth)
  {
    hide Walk, Sanitized;
    WalkSanitizes(v, strip, maxDepth, depth);
    SanitizedIsFixed(Walk(v, strip, maxDepth, depth), strip, maxDepth, depth);
  }

  // ---- bounds and secrecy at every position ----

  /** The value at the end of a path of child positions. */
  predicate IsAt(v: Json, path: seq<nat>, w: Json)
    decreases path
  {
    if path == [] then v == w
    else
      match v
      case Arr(items) => path[0] < |items| && IsAt(items[path[0]], path[1..], w)
      case Obj(entries) => path[0] < |entries| && IsAt(entries[path[0]].value, path[1..], w)
      case _ => false
  }

  /** What may stand at nesting level `level` of a sanitized value. */
  ghost predicate Harmless(w: Json, strip: bool, maxDepth: int, level: nat) {
    && (level > 0 ==> level <= maxDepth + 1)
    && (w.Arr? ==> |w.items| <= MAX_ARRAY)
    && (strip && w.Str? ==> !LooksLikeReportCode(w.s))
    && (w.Obj? ==> forall i :: 0 <= i < |w.entries| && IsSensitive(w.entries[i].key) ==>
          w.entries[i].value == Mask(w.entries[i].key, strip))
  }

  lemma {:induction false} SanitizedEverywhere(v: Json, strip: bool, maxDepth: int, depth: nat, path: seq<nat>, w: Json)
    requires depth == 0 || depth <= maxDepth + 1
    requires Sanitized(v, strip, maxDepth, depth) && IsAt(v, path, w)
    ensures Harmless(w, strip, maxDepth, depth + |path|)
    decreases path
  {
    RedactedIsNoCode();
    hide IsSensitive, LooksLikeReportCode;
    if path == [] || depth > maxDepth {
      TruncatedIsNoCode();
    } else if v.Arr? {
      SanitizedEverywhere(v.items[path[0]], strip, maxDepth, depth + 1, path[1..], w);
    } else {
      var e := v.entries[path[0]];
      assert SanitizedEntry(e, strip, maxDepth, depth);
      if !IsSensitive(e.key) {
        SanitizedEverywhere(e.value, strip, maxDepth, depth + 1, path[1..], w);
      }
    }
  }

  /**
    Anywhere in a sanitized value: nesting is bounded by the depth limit and array width by 100, no string looks like a
    report code when codes are stripped, and sensitive keys hold only their mask, which then is null.
   */
  lemma NothingLeaks(v: Json, strip: bool, maxDepth: int, path: seq<nat>, w: Json)
    requires IsAt(Walk(v, strip, maxDepth, 0), path, w)
    ensures |path| == 0 || |path| <= maxDepth + 1
    ensures w.Arr? ==> |w.items| <= MAX_ARRAY
    ensures strip && w.Str? ==> !LooksLikeReportCode(w.s)
    ensures w.Obj? ==> forall i :: 0 <= i < |w.entries| && IsSensitive(w.entries[i].key) ==>
      w.entries[i].value == (if strip || IsReportCodeKey(w.entries[i].key) then Null else Str(REDACTED))
  {
    hide IsSensitive, LooksLikeReportCode, Walk, Sanitized, IsAt, IsReportCodeKey;
    WalkSanitizes(v, strip, maxDepth, 0);
    SanitizedEverywhere(Walk(v, strip, maxDepth, 0), strip, maxDepth, 0, path, w);
  }

  lemma {:induction false} KeysKept(entries: seq<Entry>, strip: bool, maxDepth: int, depth: nat, key: string)
    ensures (exists e :: e in WalkEntries(entries, strip, maxDepth, depth) && e.key == key)
      <==> (key != PROTO && exists e :: e in entries && e.key == key)
  {
    if entries != [] {
      if IsSensitive(entries[0].key) {
        ProtoIsPlain(entries[0].key);
      }
      hide IsSensitive, Walk, Mask;
      KeysKept(entries[1..], strip, maxDepth, depth, key);
      assert entries == [entries[0]] + entries[1..];
    }
  }

  // ---- when stripped output is free of report codes ----

  /** Some string or key of the value looks like a report code. */
  predicate MentionsCode(v: Json)
    decreases v
  {
    match v
    case Str(s) => LooksLikeReportCode(s)
    case Arr(items) => exists i :: 0 <= i < |items| && MentionsCode(items[i])
    case Obj(entries) => exists i :: 0 <= i < |entries| && EntryMentionsCode(entries[i])
    case _ => false
  }

  predicate EntryMentionsCode(e: Entry)
    decreases e
  {
    LooksLikeReportCode(e.key) || MentionsCode(e.value)
  }

  /**
    A key that looks like a report code stands where the walk gets to: not too deep, not past the hundredth item, and
    not below a sensitive or the prototype key.
   */
  predicate ReachesCodeKey(v: Json, maxDepth: int, depth: nat)
    decreases v
  {
    depth <= maxDepth
    && match v
      case Arr(items) => exists i :: 0 <= i < |items| && i < MAX_ARRAY && ReachesCodeKey(items[i], maxDepth, depth + 1)
      case Obj(entries) => exists i :: 0 <= i < |entries| && EntryReachesCodeKey(entries[i], maxDepth, depth)
      case _ => false
  }

  predicate EntryReachesCodeKey(e: Entry, maxDepth: int, depth: nat)
    decreases e
  {
    e.key != PROTO
    && (LooksLikeReportCode(e.key) || (!IsSensitive(e.key) && ReachesCodeKey(e.value, maxDepth, depth + 1)))
  }

  /** Stripped output holds a report code, as a string or as a key, exactly when the walk reaches a key that is one. */
  lemma {:induction false} StrippedMentionsExactly(v: Json, maxDepth: int, depth: nat)
    ensures MentionsCode(Walk(v, true, maxDepth, depth)) <==> ReachesCodeKey(v, maxDepth, depth)
    decreases v
  {
    RedactedIsNoCode();
    TruncatedIsNoCode();
    hide IsSensitive, LooksLikeReportCode, WalkEntries, EntryMentionsCode, EntryReachesCodeKey;
    if depth <= maxDepth {
      if v.Arr? {
        var r := Walk(v, true, maxDepth, depth);
        forall i | 0 <= i < |r.items|
          ensures MentionsCode(r.items[i]) <==> ReachesCodeKey(v.items[i], maxDepth, depth + 1)
        {
          StrippedMentionsExactly(v.items[i], maxDepth, depth + 1);
        }
      } else if v.Obj? {
        var out := WalkEntries(v.entries, true, maxDepth, depth);
        EntriesMentionExactly(v.entries, maxDepth, depth, out);
        assert Walk(v, true, maxDepth, depth) == Obj(out);
      }
    }
  }

  lemma {:induction false} EntriesMentionExactly(entries: seq<Entry>, maxDepth: int, depth: nat, out: seq<Entry>)
    requires out == WalkEntries(entries, true, maxDepth, depth)
    ensures (exists i :: 0 <= i < |out| && EntryMentionsCode(out[i]))
      <==> (exists i :: 0 <= i < |entries| && EntryReachesCodeKey(entries[i], maxDepth, depth))
    decreases entries
  {
    if entries != [] {
      var e, rest := entries[0], entries[1..];
      var own, more := WalkEntry(e, true, maxDepth, depth), WalkEntries(rest, true, maxDepth, depth);
      assert out == own + more && entries == [e] + rest;
      assert |own| <= 1;
      hide *;
      EntryMentionsExactly(e, maxDepth, depth, own);
      EntriesMentionExactly(rest, maxDepth, depth, more);
      assert (exists i :: 0 <= i < |out| && EntryMentionsCode(out[i])) <==>
        (exists i :: 0 <= i < |own| && EntryMentionsCode(own[i])) ||
            (exists i :: 0 <= i < |more| && EntryMentionsCode(more[i])) by {
        EitherPart(own, more);
      }
      FirstOrRest(e, rest, maxDepth, depth);
    }
  }

  lemma EitherPart(own: seq<Entry>, more: seq<Entry>)
    ensures (exists i :: 0 <= i < |own + more| && EntryMentionsCode((own + more)[i])) <==>
      ((exists i :: 0 <= i < |own| && EntryMentionsCode(own[i])) ||
       (exists i :: 0 <= i < |more| && EntryMentionsCode(more[i])))
  {
    hide *;
    var all := own + more;
    if i :| 0 <= i < |own| && EntryMentionsCode(own[i]) {
      assert all[i] == own[i];
    }
    if i :| 0 <= i < |more| && EntryMentionsCode(more[i]) {
      assert all[i + |own|] == more[i];
    }
  }

  lemma FirstOrRest(e: Entry, rest: seq<Entry>, maxDepth: int, depth: nat)
    ensures (exists i :: 0 <= i < |[e] + rest| && EntryReachesCodeKey(([e] + rest)[i], maxDepth, depth)) <==>
      (EntryReachesCodeKey(e, maxDepth, depth) ||
       (exists i :: 0 <= i < |rest| && EntryReachesCodeKey(rest[i], maxDepth, depth)))
  {
    hide *;
    var all := [e] + rest;
    assert all[0] == e;
    if i :| 0 <= i < |rest| && EntryReachesCodeKey(rest[i], maxDepth, depth) {
      assert all[i + 1] == rest[i];
    }
  }

  lemma EntryMentionsExactly(e: Entry, maxDepth: int, depth: nat, own: seq<Entry>)
    requires own == WalkEntry(e, true, maxDepth, depth)
    ensures (exists i :: 0 <= i < |own| && EntryMentionsCode(own[i])) <==> EntryReachesCodeKey(e, maxDepth, depth)
    decreases e
  {
    hide IsSensitive, LooksLikeReportCode, Walk, ReachesCodeKey;
    StrippedMentionsExactly(e.value, maxDepth, depth + 1);
    if IsSensitive(e.key) {
      ProtoIsPlain(e.key);
      assert own == [Entry(e.key, Null)] && own[0] == Entry(e.key, Null);
    } else if e.key != PROTO {
      var walked := Entry(e.key, Walk(e.value, true, maxDepth, depth + 1));
      assert own == [walked] && own[0] == walked;
    }
  }

  /** Object keys are never redacted: a key that looks like a report code survives even when codes are stripped. */
  lemma CodeAsKeySurvives(key: string, v: Json, maxDepth: nat)
    requires key == "abcdefghijk1"
    ensures LooksLikeReportCode(key)
    ensures var r := Walk(Obj([Entry(key, v)]), true, maxDepth, 0);
      r.Obj? && exists e :: e in r.entries && e.key == key
  {
    assert IsLetter(key[0]) && IsDigit(key[11]);
    assert [Entry(key, v)][0].key == key && [Entry(key, v)][0] in [Entry(key, v)];
    KeysKept([Entry(key, v)], true, maxDepth, 0, key);
    hide IsSensitive, LooksLikeReportCode, WalkEntries;
  }
}
