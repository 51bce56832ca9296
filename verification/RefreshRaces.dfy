/**
  Runs that show that every exception in the theorems about the creation of jobs is needed. They are put together from
  segments, each of which starts in any state that allows it.
 */
module RefreshRaces {
  import opened Wrappers
  import opened ScoreRefresh
  import opened JobRows
  import opened RefreshProtocol
  import opened RefreshRuns

  lemma JoinPaths(c: Config, states: seq<State>, events: seq<Event>, states': seq<State>, events': seq<Event>)
    requires IsPath(c, states, events) && IsPath(c, states', events') && states[|events|] == states'[0]
    ensures IsPath(c, states[..|events|] + states', events + events')
  {
    var ss, es := states[..|events|] + states', events + events';
    forall i | 0 <= i < |es|
      ensures Moves(c, ss[i], es[i], ss[i + 1])
    {
      if i < |events| {
        assert Moves(c, states[i], events[i], states[i + 1]);
        assert ss[i + 1] == states[i + 1];
      } else {
        assert Moves(c, states'[i - |events|], events'[i - |events|], states'[i - |events| + 1]);
      }
    }
    hide Moves;
  }

  lemma JoinAtomic(states: seq<State>, events: seq<Event>, states': seq<State>, events': seq<Event>)
    requires Atomic(states, events) && Atomic(states', events') && states[|events|] == states'[0]
    ensures Atomic(states[..|events|] + states', events + events')
  {
    hide InFlight;
  }

  lemma OneStep(c: Config, s: State, e: Event)
    requires Enabled(s, e)
    ensures IsPath(c, [s, Step(c, s, e)], [e])
  {
  }

  /** Only that reader has moved. */
  ghost predicate Apart(s: State, t: State, reader: nat, now: int) {
    && t.snapshot == s.snapshot && t.product == s.product && t.clock == now && reader in t.readers
    && t.readers == s.readers[reader := t.readers[reader]]
  }

  /** A path of events of one reader at one time, none of which decides on a risen rating. */
  ghost predicate IsSegment(c: Config, s: State, reader: nat, now: int, states: seq<State>, events: seq<Event>) {
    && IsPath(c, states, events) && states[0] == s
    && (forall k :: 0 <= k < |events| ==>
          IsReaders(events[k]) && events[k].reader == reader && events[k].now == now && !RatingRose(events[k]))
    && (forall k :: 0 < k <= |events| ==> Apart(s, states[k], reader, now))
  }

  lemma ApartTwice(s: State, t: State, u: State, reader: nat, now: int)
    requires Apart(s, t, reader, now) && Apart(t, u, reader, now)
    ensures Apart(s, u, reader, now)
  {
  }

  lemma JoinSegments(c: Config, s: State, reader: nat, now: int, states: seq<State>, events: seq<Event>,
                     states': seq<State>, events': seq<Event>)
    requires IsSegment(c, s, reader, now, states, events) && events != []
    requires IsSegment(c, states[|events|], reader, now, states', events')
    ensures IsSegment(c, s, reader, now, states[..|events|] + states', events + events')
  {
    JoinPaths(c, states, events, states', events');
    var n, ss := |events|, states[..|events|] + states';
    forall k | 0 < k <= |events + events'|
      ensures Apart(s, ss[k], reader, now)
    {
      if k > n {
        assert ss[k] == states'[k - n];
        ApartTwice(s, states[n], ss[k], reader, now);
      }
    }
    hide Apart, IsPath, Moves;
  }

  lemma StepIsSegment(c: Config, s: State, e: Event)
    requires Enabled(s, e) && IsReaders(e) && !RatingRose(e)
    ensures IsSegment(c, s, e.reader, e.now, [s, Step(c, s, e)], [e])
  {
    hide RowAfter, NextReader, Written;
  }

  /** Nobody else is in flight. */
  ghost predicate IsAlone(s: State, reader: nat) {
    forall q :: InFlight(s, q) ==> q == reader
  }

  lemma FliesApart(s: State, t: State, reader: nat, now: int, q: nat)
    requires Apart(s, t, reader, now) && InFlight(t, q)
    ensures q == reader || InFlight(s, q)
  {
  }

  lemma SegmentIsAtomic(c: Config, s: State, reader: nat, now: int, states: seq<State>, events: seq<Event>)
    requires IsSegment(c, s, reader, now, states, events) && IsAlone(s, reader)
    ensures Atomic(states, events)
  {
    forall k, q | 0 <= k < |events| && InFlight(states[k], q)
      ensures q == reader
    {
      if k > 0 {
        assert Apart(s, states[k], reader, now);
        FliesApart(s, states[k], reader, now, q);
      }
    }
    hide Moves;
  }

  // ---- a waiting reader enqueues ----

  function StepsLeft(pc: Pc): nat {
    match pc
    case Rechecking(_) => 3
    case Decided => 3
    case Resolving(_) => 2
    case Looking => 2
    case _ => 1
  }

  function NextOf(pc: Pc, reader: nat, now: int): Event {
    match pc
    case Decided => Recheck(reader, now, false)
    case Looking => Resolve(reader, now)
    case Claiming => Claim(reader, now)
    case _ => GiveUp(reader, now)
  }

  lemma WaitingStep(c: Config, s: State, reader: nat, now: int) returns (t: State, e: Event)
    requires Waits(s, reader) && !Live(s.row) && s.clock <= now
    ensures IsSegment(c, s, reader, now, [s, t], [e])
    ensures e.Claim? ==> Creates(s, e) && t.row == Some(Requeued(now, true)) && !InFlight(t, reader)
    ensures !e.Claim? ==> Waits(t, reader) && !Live(t.row) && t.clock == now && Masked(t, reader) == Masked(s, reader)
    ensures !e.Claim? ==> StepsLeft(t.readers[reader].pc) < StepsLeft(s.readers[reader].pc)
  {
    e := NextOf(s.readers[reader].pc, reader, now);
    t := Step(c, s, e);
    StepIsSegment(c, s, e);
    hide IsStale, IsSegment;
  }

  /** With the row ended and nothing in between, a reader that has decided creates a job. */
  lemma {:induction false} Finishes(c: Config, s: State, reader: nat, now: int)
    returns (states: seq<State>, events: seq<Event>)
    requires Waits(s, reader) && !Live(s.row) && s.clock <= now
    ensures IsSegment(c, s, reader, now, states, events) && events != []
    ensures Creates(states[|events| - 1], events[|events| - 1])
    ensures forall k :: 0 <= k < |events| - 1 ==> !events[k].Claim?
    ensures Masked(states[|events| - 1], reader) <==> Masked(s, reader)
    ensures !InFlight(states[|events|], reader) && states[|events|].row == Some(Requeued(now, true))
    decreases StepsLeft(s.readers[reader].pc)
  {
    var t, e := WaitingStep(c, s, reader, now);
    states, events := [s, t], [e];
    hide InFlight, Live, Masked, Creates;
    if !e.Claim? {
      var states', events' := Finishes(c, t, reader, now);
      hide Waits, IsSegment;
      JoinSegments(c, s, reader, now, states, events, states', events');
      states, events := [s] + states', [e] + events';
      assert [s, t][..1] == [s];
    }
  }

  // ---- a reader that finds nothing in its way decides ----

  /** No score, or one whose lifetime is over. */
  predicate Lapsed(c: Config, at: Option<int>, now: int) {
    at.Some? ==> TtlOver(c, at.value, now)
  }

  /** The reader has read the published score and nothing else. */
  predicate JustBegun(s: State, reader: nat) {
    reader in s.readers && s.readers[reader] == Reader(Reading, s.readers[reader].snapshot, None, Unasked, None, false)
  }

  function LatestOf(s: State, other: Option<Row>): Option<Row> {
    if other.Some? then other else Visible(s.row)
  }

  function Facts(s: State, reader: nat, other: Option<Row>): Reader
    requires reader in s.readers
  {
    Reader(Reading, s.readers[reader].snapshot, Some(s.product), Answer(None), Some(LatestOf(s, other)), other.Some?)
  }

  /** The rest of its reads, when no live job can be seen. */
  lemma Reads(c: Config, s: State, reader: nat, now: int, other: Option<Row>)
    returns (states: seq<State>, events: seq<Event>)
    requires JustBegun(s, reader) && s.clock <= now && !Live(Visible(s.row))
    ensures IsSegment(c, s, reader, now, states, events) && |events| == 3 && forall k :: 0 <= k < 3 ==>
      !events[k].Claim?
    ensures states[3] == s.(clock := now, readers := s.readers[reader := Facts(s, reader, other)])
  {
    var rd, t := s.readers[reader], s.(clock := now);
    var rd1 := rd.(product := Some(s.product));
    var rd2 := rd1.(active := Answer(None));
    var s1, s2 := t.(readers := s.readers[reader := rd1]), t.(readers := s.readers[reader := rd2]);
    var s3 := t.(readers := s.readers[reader := Facts(s, reader, other)]);
    ReadsStep(c, s, ReadProduct(reader, now), rd1);
    ReadsStep(c, s1, FindActive(reader, now, None), rd2);
    ReadsStep(c, s2, FindLatest(reader, now, other), Facts(s, reader, other));
    Overwritten(s.readers, reader, rd1, rd2);
    Overwritten(s.readers, reader, rd2, Facts(s, reader, other));
    states, events := [s, s1, s2, s3],
        [ReadProduct(reader, now), FindActive(reader, now, None), FindLatest(reader, now, other)];
    hide Visible, LatestOf, Facts, Live, Step, Enabled;
  }

  lemma Overwritten(readers: map<nat, Reader>, reader: nat, a: Reader, b: Reader)
    ensures readers[reader := a][reader := b] == readers[reader := b]
  {
  }

  lemma ReadsStep(c: Config, s: State, e: Event, rd: Reader)
    requires IsReaders(e) && !e.ReadSnapshot? && e.reader in s.readers && s.clock <= e.now &&
      CanDo(s.readers[e.reader], e)
    requires NextReader(c, s, s.readers[e.reader], e) == rd && RowAfter(s.row, s.readers[e.reader], e) == s.row
    ensures Moves(c, s, e, s.(clock := e.now, readers := s.readers[e.reader := rd]))
  {
    hide NextReader, RowAfter;
  }

  function Verdict(reader: nat, now: int): Event {
    Conclude(reader, now, None, false, [], false)
  }

  /** What it has read lets it decide to enqueue: its latest job has not failed, and no score is within its lifetime. */
  predicate IsReady(c: Config, s: State, reader: nat, now: int) {
    && reader in s.readers && s.clock <= now &&
    var rd := s.readers[reader];
    && rd.pc.Reading? && rd.active == Answer(None) && rd.latest.Some?
    && (rd.latest.value.Some? ==> !rd.latest.value.value.status.FAILED?)
    && Lapsed(c, rd.snapshot, now) && Lapsed(c, rd.product.GetOr(None), now)
  }

  lemma Decides(c: Config, s: State, reader: nat, now: int)
    requires IsReady(c, s, reader, now)
    ensures Enabled(s, Verdict(reader, now))
    ensures Step(c, s, Verdict(reader, now))
      == s.(clock := now, readers := s.readers[reader := s.readers[reader].(pc := Decided)])
  {
    var input := InputOf(c, s.readers[reader], Verdict(reader, now));
    assert !IsScoreWithinTtl(input.scoreCalculatedAt, input.scoreTtlSeconds, input.nowMs);
    assert !InBackoff(input) && !EligibilityFailure(input);
    hide InBackoff, IsScoreWithinTtl, EligibilityFailure, ScoreAt;
  }

  /** So it creates a job. */
  lemma Acts(c: Config, s: State, reader: nat, now: int) returns (states: seq<State>, events: seq<Event>)
    requires IsReady(c, s, reader, now) && !Live(s.row)
    ensures IsSegment(c, s, reader, now, states, events) && events != []
    ensures Creates(states[|events| - 1], events[|events| - 1])
    ensures forall k :: 0 <= k < |events| - 1 ==> !events[k].Claim?
    ensures Masked(states[|events| - 1], reader) <==> Masked(s, reader)
    ensures !InFlight(states[|events|], reader) && states[|events|].row == Some(Requeued(now, true))
  {
    Decides(c, s, reader, now);
    hide Lapsed;
    StepIsSegment(c, s, Verdict(reader, now));
    var t := Step(c, s, Verdict(reader, now));
    assert Waits(t, reader) && (Masked(t, reader) <==> Masked(s, reader));
    hide Step, Enabled, Waits, Masked, IsSegment, Live, Creates, InFlight, IsReady;
    var states', events' := Finishes(c, t, reader, now);
    JoinSegments(c, s, reader, now, [s, t], [Verdict(reader, now)], states', events');
    assert [s, t][..1] == [s];
    states, events := [s] + states', [Verdict(reader, now)] + events';
  }

  /** A new reader decides. */
  lemma Deciding(c: Config, s: State, reader: nat, now: int) returns (states: seq<State>, events: seq<Event>)
    requires reader !in s.readers && s.clock <= now && s.row.None?
    requires Lapsed(c, s.snapshot, now) && Lapsed(c, s.product, now)
    ensures IsSegment(c, s, reader, now, states, events) && events != [] && states[|events|].row.None?
    ensures forall k :: 0 <= k < |events| ==> !events[k].Claim?
    ensures reader in states[|events|].readers && states[|events|].readers[reader].pc.Decided?
  {
    var e := ReadSnapshot(reader, now);
    StepIsSegment(c, s, e);
    var t := Step(c, s, e);
    assert JustBegun(t, reader) && t.readers[reader].snapshot == s.snapshot && t.product == s.product;
    var states1, events1 := Reads(c, t, reader, now, None);
    var u := states1[3];
    assert IsReady(c, u, reader, now);
    Decides(c, u, reader, now);
    hide JustBegun, IsReady, Lapsed;
    StepIsSegment(c, u, Verdict(reader, now));
    var v := Step(c, u, Verdict(reader, now));
    hide Step, Enabled, IsSegment;
    JoinSegments(c, t, reader, now, states1, events1, [u, v], [Verdict(reader, now)]);
    JoinSegments(c, s, reader, now, [s, t], [e], states1[..3] + [u, v], events1 + [Verdict(reader, now)]);
    assert [s, t][..1] == [s];
    states, events := [s] + (states1[..3] + [u, v]), [e] + (events1 + [Verdict(reader, now)]);
  }

  /** So a reader creates a job if it has just begun, knows of no score in its lifetime, and finds no failed job. */
  lemma Creation(c: Config, s: State, reader: nat, now: int, other: Option<Row>)
    returns (states: seq<State>, events: seq<Event>)
    requires JustBegun(s, reader) && s.clock <= now && !Live(s.row)
    requires Lapsed(c, s.readers[reader].snapshot, now) && Lapsed(c, s.product, now)
    requires LatestOf(s, other).Some? ==> !LatestOf(s, other).value.status.FAILED?
    ensures IsSegment(c, s, reader, now, states, events) && events != []
    ensures Creates(states[|events| - 1], events[|events| - 1])
    ensures forall k :: 0 <= k < |events| - 1 ==> !events[k].Claim?
    ensures Masked(states[|events| - 1], reader) <==> other.Some?
    ensures !InFlight(states[|events|], reader) && states[|events|].row == Some(Requeued(now, true))
  {
    var states0, events0 := Reads(c, s, reader, now, other);
    var t := states0[3];
    assert IsReady(c, t, reader, now) && t.row == s.row && (Masked(t, reader) <==> other.Some?);
    hide IsReady, LatestOf, Lapsed, Masked, IsSegment, Live, Creates, InFlight, JustBegun;
    var states1, events1 := Acts(c, t, reader, now);
    JoinSegments(c, s, reader, now, states0, events0, states1, events1);
    states, events := states0[..3] + states1, events0 + events1;
  }

  /** The whole visit of a new reader. */
  lemma Visit(c: Config, s: State, reader: nat, now: int, other: Option<Row>)
    returns (states: seq<State>, events: seq<Event>)
    requires reader !in s.readers && s.clock <= now && !Live(s.row)
    requires Lapsed(c, s.snapshot, now) && Lapsed(c, s.product, now)
    requires LatestOf(s, other).Some? ==> !LatestOf(s, other).value.status.FAILED?
    ensures IsSegment(c, s, reader, now, states, events) && events != []
    ensures Creates(states[|events| - 1], events[|events| - 1])
    ensures forall k :: 0 <= k < |events| - 1 ==> !events[k].Claim?
    ensures Masked(states[|events| - 1], reader) <==> other.Some?
    ensures !InFlight(states[|events|], reader) && states[|events|].row == Some(Requeued(now, true))
  {
    var e := ReadSnapshot(reader, now);
    StepIsSegment(c, s, e);
    var t := Step(c, s, e);
    assert JustBegun(t, reader) && t.readers[reader].snapshot == s.snapshot && LatestOf(t, other) == LatestOf(s, other);
    assert t.row == s.row && t.clock == now && t.product == s.product;
    hide Step, Enabled, JustBegun, LatestOf, Live, Creates, IsSegment, InFlight, Masked;
    var states', events' := Creation(c, t, reader, now, other);
    JoinSegments(c, s, reader, now, [s, t], [e], states', events');
    assert [s, t][..1] == [s];
    states, events := [s] + states', [e] + events';
  }

  // ---- paths that break a promise ----

  ghost predicate Level(events: seq<Event>) {
    forall k :: 0 <= k < |events| ==> !RatingRose(events[k])
  }

  /** The score published at event `i` is within its lifetime when the last event creates a job, and no rating rose. */
  ghost predicate BreaksTtl(c: Config, states: seq<State>, events: seq<Event>, i: nat) {
    && IsPath(c, states, events) && i < |events| && Level(events) && events[i].Publish?
    && Creates(states[|events| - 1], events[|events| - 1])
    && !TtlOver(c, events[i].calculatedAt, events[|events| - 1].now)
  }

  /** The failure after event `i` is within its backoff when the last event creates a job, the first one since. */
  ghost predicate BreaksBackoff(c: Config, states: seq<State>, events: seq<Event>, i: nat) {
    && IsPath(c, states, events) && i < |events| && Failed(states[i + 1].row, events[i].now)
    && Creates(states[|events| - 1], events[|events| - 1])
    && !BackoffOver(c, events[i].now, events[|events| - 1].now)
    && forall k :: i < k < |events| - 1 ==> !events[k].Claim?
  }

  lemma Prepend(c: Config, s: State, e: Event, states: seq<State>, events: seq<Event>)
    requires Enabled(s, e) && IsPath(c, states, events) && states[0] == Step(c, s, e)
    ensures IsPath(c, [s] + states, [e] + events)
    ensures !IsReaders(e) && (forall q :: !InFlight(s, q)) && Atomic(states, events) ==>
      Atomic([s] + states, [e] + events)
  {
    JoinPaths(c, [s, states[0]], [e], states, events);
    assert [s, states[0]][..1] == [s];
    hide Step, Enabled;
  }

  lemma TtlBrokenLater(c: Config, before: seq<State>, beforeEvents: seq<Event>, states: seq<State>, events: seq<Event>,
                       i: nat)
    requires IsPath(c, before, beforeEvents) && Level(beforeEvents)
    requires BreaksTtl(c, states, events, i) && before[|beforeEvents|] == states[0]
    ensures BreaksTtl(c, before[..|beforeEvents|] + states, beforeEvents + events, |beforeEvents| + i)
  {
    JoinPaths(c, before, beforeEvents, states, events);
    hide IsPath, Creates, TtlOver, RatingRose;
  }

  lemma BackoffBrokenLater(c: Config, before: seq<State>, beforeEvents: seq<Event>, states: seq<State>,
                           events: seq<Event>, i: nat)
    requires IsPath(c, before, beforeEvents)
    requires BreaksBackoff(c, states, events, i) && before[|beforeEvents|] == states[0]
    ensures BreaksBackoff(c, before[..|beforeEvents|] + states, beforeEvents + events, |beforeEvents| + i)
  {
    JoinPaths(c, before, beforeEvents, states, events);
    hide IsPath, Creates, Failed, BackoffOver;
  }

  /** The current execution of the row, if any, ends well. */
  function Settled(s: State, at: int): State {
    s.(row := if s.row.Some? then Some(Written(s.row.value, Succeed(at))) else None, clock := at)
  }

  lemma Settles(c: Config, s: State, at: int, states: seq<State>, events: seq<Event>)
    returns (states': seq<State>, events': seq<Event>)
    requires s.clock == at && IsPath(c, states, events) && states[0] == Settled(s, at) && events != []
    ensures IsPath(c, states', events') && states'[0] == s && |events'| >= |events|
    ensures states'[|events'| - 1] == states[|events| - 1] && events'[|events'| - 1] == events[|events| - 1]
    ensures Level(events) ==> Level(events')
  {
    if s.row.Some? {
      Prepend(c, s, Succeed(at), states, events);
      states', events' := [s] + states, [Succeed(at)] + events;
    } else {
      states', events' := states, events;
    }
  }

  /** From any state in which a reader waits, a score may be published and a job created at once. */
  lemma WaitingBreaksTtl(c: Config, s: State, reader: nat, at: int) returns (states: seq<State>, events: seq<Event>)
    requires c.ttlSeconds > 0 && Waits(s, reader) && s.clock <= at
    ensures BreaksTtl(c, states, events, 0) && states[0] == s && events[|events| - 1].reader == reader
  {
    var t := Step(c, s, Publish(at, at));
    var states0, events0 := Finishes(c, Settled(t, at), reader, at);
    var states1, events1 := Settles(c, t, at, states0, events0);
    Prepend(c, s, Publish(at, at), states1, events1);
    states, events := [s] + states1, [Publish(at, at)] + events1;
    hide Step, Creates, IsPath;
  }

  /** Likewise where a reader has just begun and read no score, or one whose lifetime is over. */
  lemma UninformedBreaksTtl(c: Config, s: State, reader: nat, at: int) returns (states: seq<State>, events: seq<Event>)
    requires c.ttlSeconds > 0 && JustBegun(s, reader) && s.clock <= at
    requires Lapsed(c, s.readers[reader].snapshot, at) && Lapsed(c, s.product, at)
    ensures BreaksTtl(c, states, events, 0) && states[0] == s && events[|events| - 1].reader == reader
  {
    var t := Step(c, s, Publish(at, at));
    var states0, events0 := Creation(c, Settled(t, at), reader, at, None);
    var states1, events1 := Settles(c, t, at, states0, events0);
    Prepend(c, s, Publish(at, at), states1, events1);
    states, events := [s] + states1, [Publish(at, at)] + events1;
    hide Step, Creates, IsPath;
  }

  /** From any state in which a reader waits, the job may fail and the next one be created at once. */
  lemma WaitingBreaksBackoff(c: Config, s: State, reader: nat, at: int) returns (states: seq<State>, events: seq<Event>)
    requires c.backoffSeconds > 0 && Waits(s, reader) && s.clock <= at && Visible(s.row).Some?
    ensures BreaksBackoff(c, states, events, 0) && states[0] == s && events[|events| - 1].reader == reader
  {
    var e := Fail(at, None, true);
    var t := Step(c, s, e);
    OwnCodesAreOrdinary();
    var states0, events0 := Finishes(c, t, reader, at);
    Prepend(c, s, e, states0, events0);
    states, events := [s] + states0, [e] + events0;
    assert Failed(t.row, at);
    hide Step, Creates, IsPath, Failed;
  }

  /**
    From any state in which a new reader finds the row stale, it may decide on the row as it was before it gave it up.
   */
  lemma StaleReads(c: Config, s: State, reader: nat, now: int) returns (states: seq<State>, events: seq<Event>)
    requires JustBegun(s, reader) && s.clock <= now && Live(Visible(s.row)) && IsStale(s.row.value, now)
    requires s.row.value.cancelRequested ==> s.row.value.status.QUEUED?
    ensures IsSegment(c, s, reader, now, states, events) && |events| == 4 && forall k :: 0 <= k < 4 ==>
      !events[k].Claim?
    ensures events[3].GiveUp? && Failed(states[4].row, now)
    ensures states[4].readers[reader]
      == Reader(Reading, s.readers[reader].snapshot, Some(s.product), Answer(None), Some(s.row), false)
  {
    var rd, t := s.readers[reader], s.(clock := now);
    var rd1 := rd.(product := Some(s.product));
    var rd2 := rd1.(active := Stale(s.row.value));
    var rd3 := rd2.(latest := Some(s.row));
    var s1, s2 := t.(readers := s.readers[reader := rd1]), t.(readers := s.readers[reader := rd2]);
    var s3 := t.(readers := s.readers[reader := rd3]);
    ReadsStep(c, s, ReadProduct(reader, now), rd1);
    ReadsStep(c, s1, FindActive(reader, now, None), rd2);
    ReadsStep(c, s2, FindLatest(reader, now, None), rd3);
    Overwritten(s.readers, reader, rd1, rd2);
    Overwritten(s.readers, reader, rd2, rd3);
    GivesUp(c, s3, reader, now);
    var s4 := Step(c, s3, GiveUp(reader, now));
    hide Live, Step, IsStale, Failed;
    states, events := [s, s1, s2, s3],
        [ReadProduct(reader, now), FindActive(reader, now, None), FindLatest(reader, now, None)];
    assert IsSegment(c, s, reader, now, states, events);
    JoinSegments(c, s, reader, now, states, events, [s3, s4], [GiveUp(reader, now)]);
    states, events := states[..3] + [s3, s4], events + [GiveUp(reader, now)];
  }

  lemma GivesUp(c: Config, s: State, reader: nat, now: int)
    requires reader in s.readers && s.readers[reader].pc.Reading? && s.readers[reader].active.Stale? && s.clock <= now
    requires s.row == Some(s.readers[reader].active.seen) && Live(Visible(s.row))
    requires s.row.value.cancelRequested ==> s.row.value.status.QUEUED?
    ensures IsSegment(c, s, reader, now, [s, Step(c, s, GiveUp(reader, now))], [GiveUp(reader, now)])
    ensures var t := Step(c, s, GiveUp(reader, now));
      Failed(t.row, now) && t.readers[reader] == s.readers[reader].(active := Answer(None))
  {
    StepIsSegment(c, s, GiveUp(reader, now));
    OwnCodesAreOrdinary();
    hide IsOrdinary;
  }

  /**
    From any state in which a new reader finds the row stale, that reader alone breaks the backoff of its own failure.
   */
  lemma StaleVisit(c: Config, s: State, reader: nat, now: int) returns (states: seq<State>, events: seq<Event>)
    requires c.backoffSeconds > 0 && reader !in s.readers && s.clock <= now
    requires Live(Visible(s.row)) && IsStale(s.row.value, now)
    requires s.row.value.cancelRequested ==> s.row.value.status.QUEUED?
    requires Lapsed(c, s.snapshot, now) && Lapsed(c, s.product, now)
    ensures IsSegment(c, s, reader, now, states, events)
    ensures BreaksBackoff(c, states, events, 4) && events[4].GiveUp?
  {
    var e := ReadSnapshot(reader, now);
    StepIsSegment(c, s, e);
    var t := Step(c, s, e);
    assert JustBegun(t, reader) && t.readers[reader].snapshot == s.snapshot && t.row == s.row && t.product == s.product;
    hide Step, Enabled, JustBegun, Lapsed, Live, Visible, IsStale, Creates, Failed, BackoffOver;
    var states1, events1 := StaleActs(c, t, reader, now);
    JoinSegments(c, s, reader, now, [s, t], [e], states1, events1);
    BackoffBrokenLater(c, [s, t], [e], states1, events1, 3);
    assert [s, t][..1] == [s];
    states, events := [s] + states1, [e] + events1;
    hide IsPath, Apart, BreaksBackoff;
  }

  /** It has just read the scores. */
  lemma StaleActs(c: Config, s: State, reader: nat, now: int) returns (states: seq<State>, events: seq<Event>)
    requires c.backoffSeconds > 0 && JustBegun(s, reader) && s.clock <= now
    requires Live(Visible(s.row)) && IsStale(s.row.value, now)
    requires s.row.value.cancelRequested ==> s.row.value.status.QUEUED?
    requires Lapsed(c, s.readers[reader].snapshot, now) && Lapsed(c, s.product, now)
    ensures IsSegment(c, s, reader, now, states, events)
    ensures BreaksBackoff(c, states, events, 3) && events[3].GiveUp?
  {
    var states1, events1 := StaleReads(c, s, reader, now);
    var t := states1[4];
    assert t.clock == now && !Live(t.row) && IsReady(c, t, reader, now);
    hide JustBegun, IsReady, Lapsed, Live, Creates, InFlight, Failed, Visible, IsStale, Masked;
    var states2, events2 := Acts(c, t, reader, now);
    JoinSegments(c, s, reader, now, states1, events1, states2, events2);
    states, events := states1[..4] + states2, events1 + events2;
    hide IsPath, Apart;
  }

  // ---- runs from the beginning ----

  /** A job is queued by the only reader there was. */
  ghost predicate Began(c: Config, states: seq<State>, events: seq<Event>) {
    && IsRun(c, states, events) && Level(events) && Atomic(states, events)
    && states[|events|].row == Some(Requeued(0, true)) && IsIdle(states[|events|]) &&
      states[|events|].readers.Keys == {1}
    && states[|events|].snapshot.None? && states[|events|].product.None? && states[|events|].clock == 0
  }

  ghost predicate IsIdle(s: State) {
    forall q :: !InFlight(s, q)
  }

  lemma Begins(c: Config) returns (states: seq<State>, events: seq<Event>)
    ensures Began(c, states, events)
  {
    states, events := Visit(c, INITIAL, 1, 0, None);
    SegmentIsAtomic(c, INITIAL, 1, 0, states, events);
    assert Apart(INITIAL, states[|events|], 1, 0);
    hide IsPath, Atomic;
  }

  /**
    From then on, by the only reader there is: it reads a stale row and creates the next job right after giving it up.
   */
  lemma StaleReaderBreaksBackoff(c: Config) returns (states: seq<State>, events: seq<Event>, i: nat)
    requires c.backoffSeconds > 0
    ensures IsRun(c, states, events) && Atomic(states, events) && BreaksBackoff(c, states, events, i)
    ensures events[i].GiveUp? && forall k :: i <= k < |events| ==> IsReaders(events[k]) && events[k].reader == 2
  {
    var now := STALE_QUEUED_MS + 1;
    var states0, events0 := Begins(c);
    var s := states0[|events0|];
    var states1, events1 := StaleVisit(c, s, 2, now);
    SegmentIsAtomic(c, s, 2, now, states1, events1);
    JoinAtomic(states0, events0, states1, events1);
    BackoffBrokenLater(c, states0, events0, states1, events1, 4);
    i := |events0| + 4;
    states, events := states0[..|events0|] + states1, events0 + events1;
    hide IsPath, Atomic, BreaksBackoff, InFlight;
  }

  /** Two readers decide; the job of the first is queued, and the second waits. */
  lemma TwoReaders(c: Config) returns (states: seq<State>, events: seq<Event>)
    ensures IsRun(c, states, events) && Level(events)
    ensures Waits(states[|events|], 2) && Visible(states[|events|].row).Some? && states[|events|].clock == 0
  {
    var states0, events0 := Deciding(c, INITIAL, 2, 0);
    var s := states0[|events0|];
    assert Apart(INITIAL, s, 2, 0);
    var states1, events1 := Visit(c, s, 1, 0, None);
    JoinPaths(c, states0, events0, states1, events1);
    states, events := states0[..|events0|] + states1, events0 + events1;
    assert Apart(s, states1[|events1|], 1, 0);
    hide IsPath;
  }

  /** The slower of two readers that decided together creates a job just after the other's has published. */
  lemma SlowReaderBreaksTtl(c: Config) returns (states: seq<State>, events: seq<Event>, i: nat)
    requires c.ttlSeconds > 0
    ensures IsRun(c, states, events) && BreaksTtl(c, states, events, i)
    ensures Waits(states[i], events[|events| - 1].reader)
  {
    var states0, events0 := TwoReaders(c);
    var states1, events1 := WaitingBreaksTtl(c, states0[|events0|], 2, 1);
    TtlBrokenLater(c, states0, events0, states1, events1, 0);
    i := |events0|;
    states, events := states0[..i] + states1, events0 + events1;
    hide IsPath, BreaksTtl, Waits;
  }

  /** ... or has failed. */
  lemma SlowReaderBreaksBackoff(c: Config) returns (states: seq<State>, events: seq<Event>, i: nat)
    requires c.backoffSeconds > 0
    ensures IsRun(c, states, events) && BreaksBackoff(c, states, events, i)
    ensures Waits(states[i], events[|events| - 1].reader)
  {
    var states0, events0 := TwoReaders(c);
    var states1, events1 := WaitingBreaksBackoff(c, states0[|events0|], 2, 1);
    BackoffBrokenLater(c, states0, events0, states1, events1, 0);
    i := |events0|;
    states, events := states0[..i] + states1, events0 + events1;
    hide IsPath, BreaksBackoff, Waits;
  }

  /** A reader that has not decided yet, but read the scores too early, does the same. */
  lemma TornReadBreaksTtl(c: Config) returns (states: seq<State>, events: seq<Event>, i: nat)
    requires c.ttlSeconds > 0
    ensures IsRun(c, states, events) && BreaksTtl(c, states, events, i)
    ensures JustBegun(states[i], events[|events| - 1].reader)
  {
    var states0, events0 := Begins(c);
    var s := states0[|events0|];
    OneStep(c, s, ReadSnapshot(2, 0));
    var t := Step(c, s, ReadSnapshot(2, 0));
    assert JustBegun(t, 2);
    var states1, events1 := UninformedBreaksTtl(c, t, 2, 1);
    hide Step, JustBegun, IsPath, BreaksTtl;
    TtlBrokenLater(c, [s, t], [ReadSnapshot(2, 0)], states1, events1, 0);
    assert [s, t][..1] == [s];
    TtlBrokenLater(c, states0, events0, [s] + states1, [ReadSnapshot(2, 0)] + events1, 1);
    i := |events0| + 1;
    states, events := states0[..|events0|] + ([s] + states1), events0 + ([ReadSnapshot(2, 0)] + events1);
  }

  // ---- one reader at a time ----

  /** A path that ends with the creation of a job, and begins while nobody is in flight. */
  ghost predicate IsTail(c: Config, s: State, states: seq<State>, events: seq<Event>) {
    && IsPath(c, states, events) && Atomic(states, events) && Level(events) && states[0] == s && IsIdle(s)
    && events != [] && events[|events| - 1] == Claim(2, 0) && Creates(states[|events| - 1], events[|events| - 1])
    && forall k :: 0 <= k < |events| - 1 ==> !events[k].Claim?
  }

  lemma VisitIsTail(c: Config, s: State, other: Option<Row>) returns (states: seq<State>, events: seq<Event>)
    requires IsIdle(s) && 2 !in s.readers && s.clock == 0 && !Live(s.row)
    requires Lapsed(c, s.snapshot, 0) && Lapsed(c, s.product, 0)
    requires LatestOf(s, other).Some? ==> !LatestOf(s, other).value.status.FAILED?
    ensures IsTail(c, s, states, events) && (Masked(states[|events| - 1], 2) <==> other.Some?)
    ensures forall k :: 0 <= k < |events| ==> IsReaders(events[k])
  {
    states, events := Visit(c, s, 2, 0, other);
    SegmentIsAtomic(c, s, 2, 0, states, events);
    hide IsPath, Atomic, Apart;
  }

  lemma PrependToTail(c: Config, s: State, e: Event, states: seq<State>, events: seq<Event>)
    requires IsIdle(s) && Enabled(s, e) && !IsReaders(e) && IsTail(c, Step(c, s, e), states, events)
    ensures IsTail(c, s, [s] + states, [e] + events)
  {
    Prepend(c, s, e, states, events);
    hide Step, Enabled, IsPath, Creates, Atomic;
  }

  lemma TailIsRun(c: Config, before: seq<State>, beforeEvents: seq<Event>, states: seq<State>, events: seq<Event>)
    requires Began(c, before, beforeEvents) && IsTail(c, before[|beforeEvents|], states, events)
    ensures IsRun(c, before[..|beforeEvents|] + states, beforeEvents + events)
    ensures Atomic(before[..|beforeEvents|] + states, beforeEvents + events)
  {
    JoinPaths(c, before, beforeEvents, states, events);
    JoinAtomic(before, beforeEvents, states, events);
    hide IsPath, Creates, Atomic, InFlight;
  }

  /** The state after these writes. */
  function Wrote(s: State, row: Row): State {
    s.(row := Some(row))
  }

  const QUEUED_ROW: Row := Requeued(0, true)
  const ACTIVE_ROW: Row := QUEUED_ROW.(status := ACTIVE, startedAt := Some(0))

  function FailedRow(code: Option<string>): Row {
    ACTIVE_ROW.(status := FAILED, finishedAt := Some(0), errorCode := code)
  }

  lemma StaysIdle(s: State, t: State)
    requires IsIdle(s) && t.readers == s.readers
    ensures IsIdle(t)
  {
    assert forall q :: InFlight(t, q) ==> InFlight(s, q);
  }

  lemma WriteStep(c: Config, s: State, e: Event, row: Row)
    requires !IsReaders(e) && !e.Publish? && !e.Rescore? && e.now == 0 == s.clock && s.row.Some?
    requires Written(s.row.value, e) == row
    ensures Enabled(s, e) && Step(c, s, e) == Wrote(s, row)
  {
  }

  lemma PrependWrite(c: Config, s: State, e: Event, row: Row, states: seq<State>, events: seq<Event>)
    requires !IsReaders(e) && !e.Publish? && !e.Rescore? && e.now == 0 == s.clock && s.row.Some?
    requires Written(s.row.value, e) == row && IsIdle(s) && IsTail(c, Wrote(s, row), states, events)
    ensures IsTail(c, s, [s] + states, [e] + events)
  {
    WriteStep(c, s, e, row);
    hide Step, Enabled, IsTail, IsIdle;
    PrependToTail(c, s, e, states, events);
  }

  /** The job is started and fails, and then the tail follows. */
  lemma AfterFailure(c: Config, s: State, code: Option<string>, states: seq<State>, events: seq<Event>)
    returns (states': seq<State>, events': seq<Event>)
    requires s.row == Some(QUEUED_ROW) && s.clock == 0 && IsIdle(s) &&
      IsTail(c, Wrote(s, FailedRow(code)), states, events)
    ensures IsTail(c, s, states', events') && events' == [Start(0), Fail(0, code, true)] + events
    ensures states' == [s, Wrote(s, ACTIVE_ROW)] + states
  {
    var fail, t := Fail(0, code, true), Wrote(s, ACTIVE_ROW);
    assert Wrote(t, FailedRow(code)) == Wrote(s, FailedRow(code));
    StaysIdle(s, t);
    hide IsTail, IsIdle;
    PrependWrite(c, t, fail, FailedRow(code), states, events);
    PrependWrite(c, s, Start(0), ACTIVE_ROW, [t] + states, [fail] + events);
    states', events' := [s] + ([t] + states), [Start(0)] + ([fail] + events);
  }

  lemma FailedRowIsFailed(code: Option<string>)
    requires IsOrdinary(code)
    ensures Failed(Some(FailedRow(code)), 0)
  {
  }

  /** A reader that comes alone finds a newer job of another key instead of the failed one, and creates the next. */
  lemma NewerJobBreaksBackoff(c: Config, other: Row) returns (states: seq<State>, events: seq<Event>, i: nat)
    requires c.backoffSeconds > 0 && !other.status.FAILED?
    ensures IsRun(c, states, events) && Atomic(states, events) && BreaksBackoff(c, states, events, i)
    ensures events[i].Fail? && forall k :: i < k < |events| ==> IsReaders(events[k])
    ensures Masked(states[|events| - 1], events[|events| - 1].reader)
  {
    var states0, events0 := Begins(c);
    var s := states0[|events0|];
    OwnCodesAreOrdinary();
    FailedRowIsFailed(None);
    var t := Wrote(s, FailedRow(None));
    StaysIdle(s, t);
    var states1, events1 := VisitIsTail(c, t, Some(other));
    var states2, events2 := AfterFailure(c, s, None, states1, events1);
    TailIsRun(c, states0, events0, states2, events2);
    hide IsPath, Failed, Creates, IsRun, Atomic, Masked, Step, Enabled, InFlight, FailedRow;
    i := |events0| + 1;
    states, events := states0[..|events0|] + states2, events0 + events2;
    assert states[i + 1] == states2[2] == states1[0];
    assert states[|events| - 1] == states1[|events1| - 1];
  }

  /** A worker that had been given up as stale reports success, and the next reader starts again. */
  lemma LateSuccessBreaksBackoff(c: Config) returns (states: seq<State>, events: seq<Event>, i: nat)
    requires c.backoffSeconds > 0
    ensures IsRun(c, states, events) && Atomic(states, events) && BreaksBackoff(c, states, events, i)
    ensures events[i] == Fail(0, Some(STALE_ACTIVE), true) && |events| > i + 1 && events[i + 1] == Succeed(0)
    ensures !Masked(states[|events| - 1], events[|events| - 1].reader)
  {
    var states0, events0 := Begins(c);
    var s := states0[|events0|];
    OwnCodesAreOrdinary();
    FailedRowIsFailed(Some(STALE_ACTIVE));
    var t := Wrote(s, FailedRow(Some(STALE_ACTIVE)));
    var u := Wrote(t, Written(FailedRow(Some(STALE_ACTIVE)), Succeed(0)));
    StaysIdle(s, t);
    StaysIdle(s, u);
    var states1, events1 := VisitIsTail(c, u, None);
    PrependWrite(c, t, Succeed(0), u.row.value, states1, events1);
    var states2, events2 := AfterFailure(c, s, Some(STALE_ACTIVE), [t] + states1, [Succeed(0)] + events1);
    TailIsRun(c, states0, events0, states2, events2);
    hide IsPath, Failed, Creates, IsRun, Atomic, Masked, Step, Enabled, InFlight, FailedRow;
    i := |events0| + 1;
    states, events := states0[..|events0|] + states2, events0 + events2;
    assert states[i + 1] == states2[2] == t;
    assert states[|events| - 1] == states1[|events1| - 1];
  }

  /** A redelivered message runs on a row that names no character; when that fails too, no reader can see it. */
  lemma HiddenFailureBreaksBackoff(c: Config) returns (states: seq<State>, events: seq<Event>, i: nat)
    requires c.backoffSeconds > 0
    ensures IsRun(c, states, events) && Atomic(states, events) && i < |events| && events[i].Fail?
    ensures states[i + 1].row.Some? && !states[i + 1].row.value.attached
    ensures Failed(Some(states[i + 1].row.value.(attached := true)), events[i].now)
    ensures Creates(states[|events| - 1], events[|events| - 1]) &&
      !BackoffOver(c, events[i].now, events[|events| - 1].now)
    ensures forall k :: i < k < |events| ==> IsReaders(events[k])
    ensures !Masked(states[|events| - 1], events[|events| - 1].reader)
  {
    var states0, events0 := Begins(c);
    var s, code := states0[|events0|], Some(STALE_ACTIVE);
    var t := Wrote(s, FailedRow(code));
    StaysIdle(s, t);
    var states1, events1 := HiddenTail(c, t);
    hide IsPath, Failed, Creates, IsRun, Atomic, Masked, Step, Enabled, InFlight, FailedRow, Wrote;
    var states2, events2 := AfterFailure(c, s, code, states1, events1);
    TailIsRun(c, states0, events0, states2, events2);
    i := |events0| + 3;
    states, events := states0[..|events0|] + states2, events0 + events2;
    assert states[i + 1] == states2[4] == states1[2] && events[i] == events1[1];
    assert states[|events| - 1] == states1[|events1| - 1];
    assert forall k :: i < k < |events| ==> events[k] == events1[k - |events0| - 2];
  }

  lemma HiddenTail(c: Config, s: State) returns (states: seq<State>, events: seq<Event>)
    requires IsIdle(s) && s.clock == 0 && s.row.Some? && 2 !in s.readers
    requires Lapsed(c, s.snapshot, 0) && Lapsed(c, s.product, 0)
    ensures IsTail(c, s, states, events) && |events| > 2 && events[1] == Fail(0, None, true)
    ensures states[2].row.Some? && Failed(Some(states[2].row.value.(attached := true)), 0)
    ensures !states[2].row.value.attached
    ensures forall k :: 1 < k < |events| ==> IsReaders(events[k])
    ensures !Masked(states[|events| - 1], 2)
  {
    OwnCodesAreOrdinary();
    var again, fail := Requeue(0, false), Fail(0, None, true);
    var t := Wrote(s, Requeued(0, false));
    var u := Wrote(t, Written(Requeued(0, false), fail));
    StaysIdle(s, t);
    StaysIdle(s, u);
    var states1, events1 := VisitIsTail(c, u, None);
    assert Failed(Some(u.row.value.(attached := true)), 0);
    hide IsIdle, IsPath, Failed, Creates, Atomic, Masked, InFlight, Lapsed, Visible;
    PrependWrite(c, t, fail, u.row.value, states1, events1);
    PrependWrite(c, s, again, t.row.value, [t] + states1, [fail] + events1);
    states, events := [s] + ([t] + states1), [again] + ([fail] + events1);
    assert states[2] == states1[0] && states[|events| - 1] == states1[|events1| - 1];
    assert forall k :: 1 < k < |events| ==> events[k] == events1[k - 2];
  }

  /** A worker that began earlier publishes an older score over the new one. */
  lemma OlderPublicationBreaksTtl(c: Config) returns (states: seq<State>, events: seq<Event>, i: nat)
    requires c.ttlSeconds > 0
    ensures IsRun(c, states, events) && Atomic(states, events) && BreaksTtl(c, states, events, i)
    ensures |events| > i + 1 && Outdates(events[i + 1], events[i].calculatedAt)
  {
    var states0, events0 := Begins(c);
    var s := states0[|events0|];
    var newer, older, end := Publish(0, 0), Publish(0, -c.ttlSeconds * 1000), Succeed(0);
    var t, u := s.(snapshot := Some(0)), s.(snapshot := Some(-c.ttlSeconds * 1000));
    var v := Wrote(u, Written(QUEUED_ROW, end));
    StaysIdle(s, t);
    StaysIdle(s, u);
    StaysIdle(s, v);
    assert Enabled(s, newer) && Step(c, s, newer) == t && Enabled(t, older) && Step(c, t, older) == u;
    var states1, events1 := VisitIsTail(c, v, None);
    hide IsPath, Creates, IsRun, Atomic, Step, Enabled, InFlight;
    PrependWrite(c, u, end, v.row.value, states1, events1);
    PrependToTail(c, t, older, [u] + states1, [end] + events1);
    PrependToTail(c, s, newer, [t] + ([u] + states1), [older] + ([end] + events1));
    var states2, events2 := [s] + ([t] + ([u] + states1)), [newer] + ([older] + ([end] + events1));
    TailIsRun(c, states0, events0, states2, events2);
    i := |events0|;
    states, events := states0[..|events0|] + states2, events0 + events2;
    assert BreaksTtl(c, states2, events2, 0);
    TtlBrokenLater(c, states0, events0, states2, events2, 0);
  }

  // ---- an abandoned placeholder ----

  /** A reader that decides, leaves a placeholder, and stops: no job, no worker, and yet a failure. */
  lemma AbandonsPlaceholder(c: Config) returns (states: seq<State>, events: seq<Event>, i: nat)
    ensures IsRun(c, states, events) && Atomic(states, events) && IsIdle(states[|events|])
    ensures forall k :: 0 <= k < |events| ==> IsReaders(events[k]) && !events[k].Claim?
    ensures states[|events|].row == Some(Placeholder(0))
    ensures i < |events| && events[i].Resolve? && Failed(states[i + 1].row, events[i].now)
  {
    var states0, events0 := Deciding(c, INITIAL, 1, 0);
    var s := states0[|events0|];
    assert Apart(INITIAL, s, 1, 0);
    var states1, events1 := StopsAtPlaceholder(c, s, 1, 0);
    JoinSegments(c, INITIAL, 1, 0, states0, events0, states1, events1);
    states, events, i := states0[..|events0|] + states1, events0 + events1, |events0| + 1;
    SegmentIsAtomic(c, INITIAL, 1, 0, states, events);
    assert Apart(INITIAL, states[|events|], 1, 0);
    hide IsPath, Atomic, Failed;
  }

  lemma StopsAtPlaceholder(c: Config, s: State, reader: nat, now: int) returns (states: seq<State>, events: seq<Event>)
    requires reader in s.readers && s.readers[reader].pc.Decided? && s.row.None? && s.clock <= now
    ensures IsSegment(c, s, reader, now, states, events) && |events| == 3 && events[1].Resolve?
    ensures forall k :: 0 <= k < 3 ==> !events[k].Claim?
    ensures Failed(states[2].row, now) && states[3].row == Some(Placeholder(now)) && !InFlight(states[3], reader)
  {
    var recheck, resolve, drop := Recheck(reader, now, false), Resolve(reader, now), Drop(reader, now);
    var t := Step(c, s, recheck);
    var u := Step(c, t, resolve);
    var v := Step(c, u, drop);
    OwnCodesAreOrdinary();
    assert u.row == v.row == Some(Placeholder(now)) && Failed(u.row, now) && !InFlight(v, reader);
    StepIsSegment(c, s, recheck);
    StepIsSegment(c, t, resolve);
    StepIsSegment(c, u, drop);
    hide Step, Enabled, Failed, IsSegment, InFlight;
    assert [t, u][..1] == [t] && [s, t][..1] == [s];
    JoinSegments(c, t, reader, now, [t, u], [resolve], [u, v], [drop]);
    JoinSegments(c, s, reader, now, [s, t], [recheck], [t] + [u, v], [resolve] + [drop]);
    states, events := [s] + ([t] + [u, v]), [recheck] + ([resolve] + [drop]);
  }

  /** What a reader does that finds the placeholder: it backs off until the placeholder is old, score or no score. */
  lemma PlaceholderDecides(c: Config, rd: Reader, e: Event, at: int)
    requires e.Conclude? && rd.active == Answer(None) && rd.latest == Some(Some(Placeholder(at)))
    ensures var action := Decide(InputOf(c, rd, e)).action;
      var alive := IsScoreWithinTtl(ScoreAt(rd), c.ttlSeconds, e.now) && !RatingRose(e);
      && (action == NONE <==> alive)
      && (action == BACKOFF <==> !alive && !BackoffOver(c, at, e.now))
      && (action == ENQUEUE <==> !alive && BackoffOver(c, at, e.now))
  {
    OwnCodesAreOrdinary();
    hide ScoreAt, IsStaleContractFailureCode, IsEligibilityFailureCode;
  }
}
