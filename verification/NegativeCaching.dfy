/** The cache of identities known not to exist (apps/worker/src/negative-cache.ts), against the history of its calls. */
module NegativeCaching {
  import opened Wrappers
  import opened Delimited

  datatype Identity = Identity(region: string, realmSlug: string, name: string)

  /** The normalizers of the three parts. */
  datatype Normalizers = Normalizers(region: string -> string, realmSlug: string -> string, name: string -> string)

  function KeyParts(n: Normalizers, id: Identity): seq<string> {
    [n.region(id.region), n.realmSlug(id.realmSlug), n.name(id.name)]
  }

  function Key(n: Normalizers, id: Identity): string {
    Join('|', KeyParts(n, id))
  }

  /** Region, realm and name, normalized, with bars between. */
  lemma KeyExactly(n: Normalizers, id: Identity)
    ensures Key(n, id) == n.region(id.region) + "|" + (n.realmSlug(id.realmSlug) + "|" + n.name(id.name))
  {
    JoinOfThree('|', n.region(id.region), n.realmSlug(id.realmSlug), n.name(id.name));
  }

  /** Identities whose normalized region and realm hold no separator share an entry exactly when their parts agree. */
  lemma KeysAgreeExactly(n: Normalizers, a: Identity, b: Identity)
    requires FreeOf('|', KeyParts(n, a)[..2]) && FreeOf('|', KeyParts(n, b)[..2])
    ensures Key(n, a) == Key(n, b) <==>
            n.region(a.region) == n.region(b.region) && n.realmSlug(a.realmSlug) == n.realmSlug(b.realmSlug)
            && n.name(a.name) == n.name(b.name)
  {
    PlainPartsInjective(KeyParts(n, a), KeyParts(n, b));
    var ps, qs := KeyParts(n, a), KeyParts(n, b);
    if ps == qs {
      assert ps[0] == qs[0] && ps[1] == qs[1] && ps[2] == qs[2];
    }
    hide Join, FreeOf;
  }

  const PLAIN: seq<string> := ["", "", ""]

  lemma PlainPartsInjective(ps: seq<string>, qs: seq<string>)
    requires |ps| == |qs| == 3 && FreeOf('|', ps[..2]) && FreeOf('|', qs[..2])
    ensures Join('|', ps) == Join('|', qs) <==> ps == qs
  {
    PlainEndsOnce(ps);
    PlainEndsOnce(qs);
    PlainTagged(ps);
    PlainTagged(qs);
    assert TagsFree('|', PLAIN);
    hide PLAIN, EndsOnce, Join, FreeOf;
    TaggedInjective('|', PLAIN, ps, qs);
  }

  lemma PlainEndsOnce(ps: seq<string>)
    requires |ps| == 3 && FreeOf('|', ps[..2])
    ensures EndsOnce('|', PLAIN, ps)
  {
    forall i: nat | i + 1 < |PLAIN|
      ensures !Contains(ps[i], EndMark('|', PLAIN, i))
    {
      assert ps[..2][i] == ps[i];
      HoldsNoMark(ps[i], EndMark('|', PLAIN, i));
    }
  }

  /** A separator in either of the first two parts makes another triple join to the same key. */
  lemma SeparatorCollides(ps: seq<string>, i: nat, a: string, b: string) returns (qs: seq<string>)
    requires |ps| == 3 && i < 2 && ps[i] == a + "|" + b
    ensures |qs| == 3 && qs != ps && Join('|', qs) == Join('|', ps)
  {
    assert EndMark('|', PLAIN, i) == "|";
    qs := EndMoves('|', PLAIN, ps, i, a, b);
    PlainTagged(ps);
    PlainTagged(qs);
    hide Join;
  }

  lemma PlainTagged(ps: seq<string>)
    requires |ps| == 3
    ensures Tagged(PLAIN, ps) == ps
  {
    var parts := Tagged(PLAIN, ps);
    forall i | 0 <= i < 3
      ensures parts[i] == ps[i]
    {
      assert PLAIN[i] == "" && parts[i] == "" + ps[i] == ps[i];
    }
  }

  // ---- what the calls do ----

  datatype Entry = Entry(expiresAt: int, reason: string)

  datatype Call =
    | SetCall(key: string, reason: string, now: int)
    | HasCall(key: string, now: int)
    | ClearCall(key: string, now: int)

  type Entries = map<string, Entry>

  /** An entry that has not expired. */
  predicate Holds(entries: Entries, key: string, now: int) {
    key in entries && entries[key].expiresAt > now
  }

  function After(ttlMs: int, entries: Entries, c: Call): Entries {
    match c
    case SetCall(key, reason, now) => entries[key := Entry(now + ttlMs, reason)]
    case HasCall(key, now) => if key in entries && !Holds(entries, key, now) then entries - {key} else entries
    case ClearCall(key, _) => entries - {key}
  }

  function AfterAll(ttlMs: int, calls: seq<Call>): Entries {
    if calls == [] then map[] else After(ttlMs, AfterAll(ttlMs, calls[..|calls| - 1]), calls[|calls| - 1])
  }

  // ---- what the history says ----

  /** When the key was last set, if it has not been cleared since. */
  function LastSet(calls: seq<Call>, key: string): Option<int> {
    if calls == [] then None
    else
      var c := calls[|calls| - 1];
      if c.key == key && c.SetCall? then Some(c.now)
      else if c.key == key && c.ClearCall? then None
      else LastSet(calls[..|calls| - 1], key)
  }

  /** The latest set after the latest clear is less than the lifetime old. */
  predicate Remembered(ttlMs: int, calls: seq<Call>, key: string, now: int) {
    LastSet(calls, key).Some? && now - LastSet(calls, key).value < ttlMs
  }

  predicate Nondecreasing(calls: seq<Call>) {
    forall i, j :: 0 <= i < j < |calls| ==> calls[i].now <= calls[j].now
  }

  /** No call is later than `now`. */
  predicate NotAfter(calls: seq<Call>, now: int) {
    forall i :: 0 <= i < |calls| ==> calls[i].now <= now
  }

  /** A lookup since the last set found the key expired, and so evicted it. */
  predicate Evicted(ttlMs: int, calls: seq<Call>, key: string) {
    calls != [] &&
    var before, c := calls[..|calls| - 1], calls[|calls| - 1];
    if c.key != key then Evicted(ttlMs, before, key)
    else match c
      case SetCall(_, _, _) => false
      case ClearCall(_, _) => false
      case HasCall(_, now) =>
        (LastSet(before, key).Some? && now - LastSet(before, key).value >= ttlMs) || Evicted(ttlMs, before, key)
  }

  /** The entries are those set, not cleared and not evicted since. */
  lemma {:induction false} EntriesExactly(ttlMs: int, calls: seq<Call>, key: string)
    ensures key in AfterAll(ttlMs, calls) <==> LastSet(calls, key).Some? && !Evicted(ttlMs, calls, key)
    ensures key in AfterAll(ttlMs, calls) ==> AfterAll(ttlMs, calls)[key].expiresAt == LastSet(calls, key).value + ttlMs
  {
    if calls != [] {
      var before, c := calls[..|calls| - 1], calls[|calls| - 1];
      EntriesExactly(ttlMs, before, key);
      var entries := AfterAll(ttlMs, before);
      assert AfterAll(ttlMs, calls) == After(ttlMs, entries, c);
      hide AfterAll;
    }
  }

  /**
    For calls at any times, the cache answers what the history says exactly when it is not the case that the history
    remembers the key and an earlier lookup has evicted it.
   */
  lemma AnswersHistoryExactly(ttlMs: int, calls: seq<Call>, key: string, now: int)
    ensures (Holds(AfterAll(ttlMs, calls), key, now) <==> Remembered(ttlMs, calls, key, now))
      <==> !(Remembered(ttlMs, calls, key, now) && Evicted(ttlMs, calls, key))
  {
    EntriesExactly(ttlMs, calls, key);
    hide AfterAll, LastSet, Evicted;
  }

  /** While time does not go back, what was evicted stays expired. */
  lemma {:induction false} EvictedStaysExpired(ttlMs: int, calls: seq<Call>, key: string, now: int)
    requires Nondecreasing(calls) && NotAfter(calls, now)
    ensures Evicted(ttlMs, calls, key) ==> !Remembered(ttlMs, calls, key, now)
  {
    if calls != [] {
      var before, c := calls[..|calls| - 1], calls[|calls| - 1];
      EvictedStaysExpired(ttlMs, before, key, now);
      assert c.now <= now;
      hide Nondecreasing, NotAfter;
    }
  }

  lemma HoldsExactly(ttlMs: int, calls: seq<Call>, key: string, now: int)
    requires Nondecreasing(calls) && NotAfter(calls, now)
    ensures Holds(AfterAll(ttlMs, calls), key, now) <==> Remembered(ttlMs, calls, key, now)
  {
    hide *;
    AnswersHistoryExactly(ttlMs, calls, key, now);
    EvictedStaysExpired(ttlMs, calls, key, now);
  }

  /**
    At times that never go back, `has` answers what the history says, so what it evicts makes no later difference.
   */
  lemma EvictionUnobservable(ttlMs: int, calls: seq<Call>, i: nat)
    requires Nondecreasing(calls) && i < |calls| && calls[i].HasCall?
    ensures Holds(AfterAll(ttlMs, calls[..i]), calls[i].key, calls[i].now)
      <==> Remembered(ttlMs, calls[..i], calls[i].key, calls[i].now)
  {
    assert Nondecreasing(calls[..i]) && NotAfter(calls[..i], calls[i].now);
    HoldsExactly(ttlMs, calls[..i], calls[i].key, calls[i].now);
  }

  /** Such a call: an entry evicted at its end is not found at an earlier time, although the history remembers it. */
  lemma ClockGoingBackForgets(ttlMs: int, key: string)
    requires ttlMs > 0
    ensures var calls := [SetCall(key, "NOT_FOUND", 0), HasCall(key, ttlMs)];
      Remembered(ttlMs, calls, key, 0) && !Holds(AfterAll(ttlMs, calls), key, 0)
  {
    var calls := [SetCall(key, "NOT_FOUND", 0), HasCall(key, ttlMs)];
    assert calls[..1] == [SetCall(key, "NOT_FOUND", 0)];
    assert AfterAll(ttlMs, calls[..1]) == map[key := Entry(ttlMs, "NOT_FOUND")];
    assert LastSet(calls[..1], key) == Some(0);
  }

  /** The keys the history still remembers. */
  function LiveKeys(ttlMs: int, calls: seq<Call>, now: int): set<string> {
    set i | 0 <= i < |calls| && Remembered(ttlMs, calls, calls[i].key, now) :: calls[i].key
  }

  lemma SubsetSmaller(a: set<string>, b: set<string>)
    requires a <= b
    ensures |a| <= |b|
  {
    assert b == a + (b - a);
  }

  /** The number of entries never falls below the number of live keys; entries beyond them are expired. */
  lemma SizeCoversLiveKeys(ttlMs: int, calls: seq<Call>, now: int)
    requires Nondecreasing(calls) && NotAfter(calls, now)
    ensures |LiveKeys(ttlMs, calls, now)| <= |AfterAll(ttlMs, calls)|
    ensures forall key :: key in AfterAll(ttlMs, calls) && key !in LiveKeys(ttlMs, calls, now) ==>
      AfterAll(ttlMs, calls)[key].expiresAt <= now
  {
    var entries, live := AfterAll(ttlMs, calls), LiveKeys(ttlMs, calls, now);
    forall key ensures Holds(entries, key, now) <==> Remembered(ttlMs, calls, key, now) {
      HoldsExactly(ttlMs, calls, key, now);
    }
    forall key ensures key in live <==> Remembered(ttlMs, calls, key, now) {
      RememberedWasCalled(ttlMs, calls, key, now);
    }
    hide AfterAll, LiveKeys, Remembered;
    assert forall key :: key in live ==> Holds(entries, key, now);
    assert live <= entries.Keys;
    SubsetSmaller(live, entries.Keys);
  }

  lemma {:induction false} RememberedWasCalled(ttlMs: int, calls: seq<Call>, key: string, now: int)
    ensures Remembered(ttlMs, calls, key, now) ==> exists i :: 0 <= i < |calls| && calls[i].key == key
    ensures key in LiveKeys(ttlMs, calls, now) <==> Remembered(ttlMs, calls, key, now)
  {
    if Remembered(ttlMs, calls, key, now) {
      SetWasCalled(calls, key);
    }
    hide Remembered;
  }

  lemma {:induction false} SetWasCalled(calls: seq<Call>, key: string)
    requires LastSet(calls, key).Some?
    ensures exists i :: 0 <= i < |calls| && calls[i].key == key
  {
    var before, c := calls[..|calls| - 1], calls[|calls| - 1];
    if c.key != key || c.HasCall? {
      SetWasCalled(before, key);
      var i :| 0 <= i < |before| && before[i].key == key;
      assert calls[i].key == key;
    }
  }

  // ---- the class ----

  class NegativeCache {
    const normalizers: Normalizers
    const ttlMs: int
    var entries: Entries
    ghost var calls: seq<Call>

    ghost predicate Valid()
      reads this
    {
      entries == AfterAll(ttlMs, calls)
    }

    constructor (normalizers: Normalizers, ttlMs: int)
      ensures Valid() && calls == [] && this.ttlMs == ttlMs && this.normalizers == normalizers
    {
      this.normalizers := normalizers;
      this.ttlMs := ttlMs;
      entries := map[];
      calls := [];
    }

    ghost method Record(c: Call)
      requires entries == After(ttlMs, AfterAll(ttlMs, calls), c)
      modifies this`calls
      ensures Valid() && calls == old(calls) + [c]
    {
      assert (calls + [c])[..|calls|] == calls;
      calls := calls + [c];
    }

    method Set(identity: Identity, reason: string, now: int)
      requires Valid()
      modifies this
      ensures Valid() && calls == old(calls) + [SetCall(Key(normalizers, identity), reason, now)]
      ensures now < now + ttlMs ==> Holds(entries, Key(normalizers, identity), now)
    {
      var key := Key(normalizers, identity);
      entries := entries[key := Entry(now + ttlMs, reason)];
      Record(SetCall(key, reason, now));
    }

    method Has(identity: Identity, now: int) returns (answer: bool)
      requires Valid()
      modifies this
      ensures Valid() && calls == old(calls) + [HasCall(Key(normalizers, identity), now)]
      ensures answer == old(Holds(entries, Key(normalizers, identity), now))
      ensures answer <==> && Remembered(ttlMs, old(calls), Key(normalizers, identity), now)
                          && !Evicted(ttlMs, old(calls), Key(normalizers, identity))
      ensures Nondecreasing(calls) ==> answer == Remembered(ttlMs, old(calls), Key(normalizers, identity), now)
    {
      var key := Key(normalizers, identity);
      ghost var before := calls;
      EntriesExactly(ttlMs, calls, key);
      answer := key in entries && !(entries[key].expiresAt <= now);
      if key in entries && entries[key].expiresAt <= now {
        entries := entries - {key};
      }
      Record(HasCall(key, now));
      assert calls[..|before|] == before && calls[|before|] == HasCall(key, now);
      if Nondecreasing(calls) {
        EvictionUnobservable(ttlMs, calls, |before|);
      }
      hide Key, AfterAll, Nondecreasing, LastSet, Evicted;
    }

    method Clear(identity: Identity, ghost now: int)
      requires Valid()
      modifies this
      ensures Valid() && calls == old(calls) + [ClearCall(Key(normalizers, identity), now)]
      ensures Key(normalizers, identity) !in entries
      ensures forall key :: key != Key(normalizers, identity) ==>
        (key in entries <==> key in old(entries)) && (key in entries ==> entries[key] == old(entries)[key])
    {
      var key := Key(normalizers, identity);
      entries := entries - {key};
      Record(ClearCall(key, now));
    }

    method Size(ghost now: int) returns (n: nat)
      requires Valid()
      ensures n == |entries|
      ensures Nondecreasing(calls) && NotAfter(calls, now) ==> n >= |LiveKeys(ttlMs, calls, now)|
    {
      n := |entries|;
      if Nondecreasing(calls) && NotAfter(calls, now) {
        SizeCoversLiveKeys(ttlMs, calls, now);
      }
    }
  }
}
