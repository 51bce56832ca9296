/**
  What the refresh policy promises about the creation of jobs, over every run of the protocol from any state. A reader
  is judged by the facts it read, however late it acts on them.
 */
module RefreshRuns {
  import opened Wrappers
  import opened ScoreRefresh
  import opened JobRows
  import opened RefreshProtocol

  lemma {:induction false} ClockGrows(c: Config, states: seq<State>, events: seq<Event>, i: nat, j: nat)
    requires IsPath(c, states, events) && i <= j <= |events|
    ensures states[i].clock <= states[j].clock
    ensures j < |events| ==> states[i].clock <= events[j].now
  {
    if i < j {
      ClockGrows(c, states, events, i, j - 1);
      NowIsClock(c, states[j - 1], events[j - 1], states[j]);
    }
    if j < |events| {
      NowIsClock(c, states[j], events[j], states[j + 1]);
    }
    hide Moves;
  }

  lemma NowIsClock(c: Config, s: State, e: Event, t: State)
    requires Moves(c, s, e, t)
    ensures s.clock <= e.now == t.clock
  {
  }

  // ---- since when a reader flies ----

  /** The reader has decided to enqueue and is not done. */
  predicate Waits(s: State, reader: nat) {
    InFlight(s, reader) && !s.readers[reader].pc.Reading?
  }

  /** The reader decided to enqueue at event `m`. */
  predicate DecidedAt(c: Config, states: seq<State>, events: seq<Event>, m: nat, reader: nat) {
    m < |events| && m < |states| && DecidesEnqueue(c, states[m], events[m]) && events[m].reader == reader
  }

  /** A step moves its own reader only. */
  lemma ReaderStep(c: Config, s: State, e: Event, t: State, reader: nat)
    requires Moves(c, s, e, t) && !(IsReaders(e) && e.reader == reader)
    ensures reader in t.readers <==> reader in s.readers
    ensures reader in s.readers ==> t.readers[reader] == s.readers[reader]
  {
    hide NextReader, RowAfter, Written;
  }

  lemma WaitsStep(c: Config, s: State, e: Event, t: State, reader: nat)
    requires Moves(c, s, e, t) && Waits(t, reader)
    ensures Waits(s, reader) || (DecidesEnqueue(c, s, e) && e.reader == reader)
  {
    if !(IsReaders(e) && e.reader == reader) {
      ReaderStep(c, s, e, t, reader);
    }
    hide Decide, InputOf, RowAfter, Written;
  }

  /** A reader that has decided had done so at `i` already, or has since. */
  lemma {:induction false} WaitsSince(c: Config, states: seq<State>, events: seq<Event>, i: nat, j: nat, reader: nat)
    requires IsPath(c, states, events) && i <= j <= |events| && Waits(states[j], reader)
    ensures Waits(states[i], reader) || exists m: nat :: i <= m < j && DecidedAt(c, states, events, m, reader)
  {
    hide DecidesEnqueue, Waits;
    if i < j {
      assert Moves(c, states[j - 1], events[j - 1], states[j]);
      hide Moves;
      WaitsStep(c, states[j - 1], events[j - 1], states[j], reader);
      if Waits(states[j - 1], reader) {
        WaitsSince(c, states, events, i, j - 1, reader);
      } else {
        assert DecidedAt(c, states, events, j - 1, reader);
      }
    }
  }

  lemma CreatorWaits(c: Config, s: State, e: Event, t: State)
    requires Moves(c, s, e, t) && Creates(s, e)
    ensures Waits(s, e.reader)
  {
  }

  // ---- the lifetime of a published score ----

  /** A later publication replaces the score by one that was calculated before `at`. */
  predicate Outdates(e: Event, at: int) {
    e.Publish? && e.calculatedAt < at
  }

  ghost predicate OutdatedBetween(events: seq<Event>, i: nat, j: nat, at: int) {
    exists m: nat :: i < m < j <= |events| && Outdates(events[m], at)
  }

  /** The published score, and the one every reader has read that was not in flight before, are no older than `at`. */
  ghost predicate Informed(s: State, at: int, before: State) {
    && s.snapshot.Some? && at <= s.snapshot.value
    && forall r :: InFlight(s, r) && !InFlight(before, r) ==>
        s.readers[r].snapshot.Some? && at <= s.readers[r].snapshot.value
  }

  lemma InformedKept(c: Config, s: State, e: Event, t: State, at: int, before: State)
    requires Moves(c, s, e, t) && Informed(s, at, before) && !Outdates(e, at)
    ensures Informed(t, at, before)
  {
    forall r | InFlight(t, r) && !InFlight(before, r)
      ensures t.readers[r].snapshot.Some? && at <= t.readers[r].snapshot.value
    {
      if !(IsReaders(e) && e.reader == r) {
        ReaderStep(c, s, e, t, r);
      }
    }
    hide Decide, InputOf, RowAfter, Written, IsStale;
  }

  lemma InformedAtFirst(c: Config, s: State, e: Event, t: State)
    requires Moves(c, s, e, t) && e.Publish?
    ensures Informed(t, e.calculatedAt, s)
  {
  }

  lemma {:induction false} StaysInformed(c: Config, states: seq<State>, events: seq<Event>, i: nat, j: nat)
    requires IsPath(c, states, events) && i < j <= |events| && events[i].Publish?
    ensures Informed(states[j], events[i].calculatedAt, states[i]) ||
      OutdatedBetween(events, i, j, events[i].calculatedAt)
  {
    assert Moves(c, states[j - 1], events[j - 1], states[j]);
    hide Moves, Informed, Outdates;
    if i == j - 1 {
      InformedAtFirst(c, states[i], events[i], states[j]);
    } else {
      StaysInformed(c, states, events, i, j - 1);
      if Informed(states[j - 1], events[i].calculatedAt, states[i]) &&
        !Outdates(events[j - 1], events[i].calculatedAt) {
        InformedKept(c, states[j - 1], events[j - 1], states[j], events[i].calculatedAt, states[i]);
      }
    }
  }

  /** A reader that knows of the score does not decide to enqueue while it lives, but on a risen rating. */
  lemma InformedRefuses(c: Config, s: State, e: Event, t: State, at: int)
    requires Moves(c, s, e, t) && DecidesEnqueue(c, s, e)
    requires s.readers[e.reader].snapshot.Some? && at <= s.readers[e.reader].snapshot.value
    ensures TtlOver(c, at, e.now) || RatingRose(e)
  {
    var input := InputOf(c, s.readers[e.reader], e);
    if input.activeJobStatus.None? {
      FreshIsLeftAlone(input);
      hide Decide;
    } else {
      StatusesAreHonest(input);
      hide Decide;
    }
  }

  /**
    After a publication no reader that began to read since decides to enqueue within the lifetime of the score, unless
    the rating rose by the threshold or an older score was published over it.
   */
  lemma NoDecisionWithinTtl(c: Config, states: seq<State>, events: seq<Event>, i: nat, j: nat)
    requires IsPath(c, states, events) && i < j < |events|
    requires events[i].Publish? && DecidesEnqueue(c, states[j], events[j]) && !InFlight(states[i], events[j].reader)
    ensures TtlOver(c, events[i].calculatedAt, events[j].now) || RatingRose(events[j])
      || OutdatedBetween(events, i, j, events[i].calculatedAt)
  {
    StaysInformed(c, states, events, i, j);
    assert Moves(c, states[j], events[j], states[j + 1]);
    if Informed(states[j], events[i].calculatedAt, states[i]) {
      assert InFlight(states[j], events[j].reader);
      InformedRefuses(c, states[j], events[j], states[j + 1], events[i].calculatedAt);
    }
    hide IsPath, DecidesEnqueue, Moves;
  }

  /** The reader decided on a risen rating, after event `i` and before event `j`. */
  ghost predicate RoseBetween(c: Config, states: seq<State>, events: seq<Event>, i: nat, j: nat, reader: nat) {
    exists m: nat :: i < m < j && DecidedAt(c, states, events, m, reader) && RatingRose(events[m])
  }

  /**
    After a publication no job is created within the lifetime of the score, unless by a reader that was in flight when
    it was published or decided since on a risen rating, or after an older score was published over it.
   */
  lemma NoCreationWithinTtl(c: Config, states: seq<State>, events: seq<Event>, i: nat, j: nat)
    requires IsPath(c, states, events) && i < j < |events|
    requires events[i].Publish? && Creates(states[j], events[j])
    ensures TtlOver(c, events[i].calculatedAt, events[j].now)
      || InFlight(states[i], events[j].reader)
      || RoseBetween(c, states, events, i, j, events[j].reader)
      || OutdatedBetween(events, i, j, events[i].calculatedAt)
  {
    var reader, at := events[j].reader, events[i].calculatedAt;
    assert Moves(c, states[j], events[j], states[j + 1]);
    CreatorWaits(c, states[j], events[j], states[j + 1]);
    assert !DecidesEnqueue(c, states[i], events[i]);
    hide Creates, Moves, DecidesEnqueue;
    WaitsSince(c, states, events, i, j, reader);
    if !InFlight(states[i], reader) {
      var m: nat :| i <= m < j && DecidedAt(c, states, events, m, reader);
      NoDecisionWithinTtl(c, states, events, i, m);
      assert Moves(c, states[m], events[m], states[m + 1]);
      NowIsClock(c, states[m], events[m], states[m + 1]);
      ClockGrows(c, states, events, m + 1, j);
    }
    hide InFlight, IsPath;
  }

  // ---- the backoff after a failure ----

  /** What a reader that began after the failure can have read: no live job, and if any of this key the failed row. */
  predicate Cooled(rd: Reader, at: int) {
    && !rd.active.Stale? && !rd.pc.Rechecking? && !rd.pc.Resolving?
    && (rd.masked || (rd.pc.Reading? && (rd.latest.Some? ==> Failed(rd.latest.value, at))))
  }

  ghost predicate Cooling(s: State, at: int, before: State) {
    && Failed(s.row, at)
    && forall r :: InFlight(s, r) && !InFlight(before, r) ==> Cooled(s.readers[r], at)
  }

  /** Event `m` creates a job for a reader that was in flight at event `i`, or had found a newer job of another key. */
  ghost predicate SlipsIn(states: seq<State>, events: seq<Event>, i: nat, m: nat) {
    && i < m < |events| <= |states| && Creates(states[m], events[m])
    && (InFlight(states[i], events[m].reader) || Masked(states[m], events[m].reader))
  }

  predicate Masked(s: State, reader: nat) {
    reader in s.readers && s.readers[reader].masked
  }

  ghost predicate WipedBetween(states: seq<State>, events: seq<Event>, i: nat, j: nat) {
    exists m: nat :: i < m < j <= |events| <= |states| && Wipes(states[m], events[m])
  }

  ghost predicate SlipsBetween(states: seq<State>, events: seq<Event>, i: nat, j: nat) {
    exists m: nat :: m < j && SlipsIn(states, events, i, m)
  }

  lemma CooledRefuses(c: Config, s: State, e: Event, t: State, at: int)
    requires Moves(c, s, e, t) && DecidesEnqueue(c, s, e)
    requires Cooled(s.readers[e.reader], at) && !s.readers[e.reader].masked
    ensures BackoffOver(c, at, e.now)
  {
    hide IsStaleContractFailureCode, IsEligibilityFailureCode, ScoreAt;
  }

  /** The failed row stays one, but for a claim or a wipe. */
  lemma RowStaysFailed(c: Config, s: State, e: Event, t: State, at: int)
    requires Moves(c, s, e, t) && Failed(s.row, at) && at <= s.clock && !Wipes(s, e) && !Creates(s, e)
    ensures Failed(t.row, at)
  {
    OwnCodesAreOrdinary();
    hide IsOrdinary, NextReader, IsStale;
  }

  lemma ReaderStaysCooled(c: Config, s: State, e: Event, t: State, at: int)
    requires Moves(c, s, e, t) && Failed(s.row, at) && IsReaders(e) && InFlight(t, e.reader)
    requires e.ReadSnapshot? || Cooled(s.readers[e.reader], at)
    ensures Cooled(t.readers[e.reader], at) || (DecidesEnqueue(c, s, e) && !s.readers[e.reader].masked)
  {
    hide RowAfter, Written, Decide, InputOf, IsOrdinary, IsStale;
  }

  lemma CoolingKept(c: Config, s: State, e: Event, t: State, at: int, before: State)
    requires Moves(c, s, e, t) && Cooling(s, at, before) && at <= s.clock && !Wipes(s, e) && !Creates(s, e)
    ensures Cooling(t, at, before) || BackoffOver(c, at, t.clock)
  {
    RowStaysFailed(c, s, e, t, at);
    NowIsClock(c, s, e, t);
    assert e.ReadSnapshot? ==> !InFlight(s, e.reader);
    forall r | InFlight(t, r) && !InFlight(before, r)
      ensures Cooled(t.readers[r], at) || BackoffOver(c, at, t.clock)
    {
      if IsReaders(e) && e.reader == r {
        StaysInFlight(c, s, e, t);
        ReaderStaysCooled(c, s, e, t, at);
        if DecidesEnqueue(c, s, e) && !s.readers[r].masked {
          CooledRefuses(c, s, e, t, at);
        }
      } else {
        ReaderStep(c, s, e, t, r);
      }
    }
    hide Moves, Cooled, Failed, DecidesEnqueue, Wipes, Creates;
  }

  lemma StaysInFlight(c: Config, s: State, e: Event, t: State)
    requires Moves(c, s, e, t) && IsReaders(e) && InFlight(t, e.reader)
    ensures e.ReadSnapshot? || InFlight(s, e.reader)
  {
  }

  lemma CoolingAtFirst(c: Config, s: State, e: Event, t: State)
    requires Moves(c, s, e, t) && Failed(t.row, e.now)
    ensures Cooling(t, e.now, s)
  {
    forall r | InFlight(t, r) && !InFlight(s, r)
      ensures Cooled(t.readers[r], e.now)
    {
      if IsReaders(e) && e.reader == r {
        StaysInFlight(c, s, e, t);
      } else {
        ReaderStep(c, s, e, t, r);
      }
    }
    hide RowAfter, NextReader, Written, Failed;
  }

  /** In a cooling state only readers of before, and those that found another job, get to create one. */
  lemma CoolingSlips(c: Config, s: State, e: Event, t: State, at: int, before: State)
    requires Moves(c, s, e, t) && Cooling(s, at, before) && Creates(s, e)
    ensures InFlight(before, e.reader) || Masked(s, e.reader)
  {
    CreatorWaits(c, s, e, t);
    hide Moves, Failed, Creates;
  }

  lemma {:induction false} StaysCooling(c: Config, states: seq<State>, events: seq<Event>, i: nat, j: nat)
    requires IsPath(c, states, events) && i < j <= |events| && Failed(states[i + 1].row, events[i].now)
    ensures Cooling(states[j], events[i].now, states[i]) || BackoffOver(c, events[i].now, states[j].clock)
      || SlipsBetween(states, events, i, j) || WipedBetween(states, events, i, j)
  {
    var at, s, e, t := events[i].now, states[j - 1], events[j - 1], states[j];
    assert Moves(c, s, e, t);
    hide Moves, Cooling, Creates, Failed, Wipes;
    if i == j - 1 {
      CoolingAtFirst(c, s, e, t);
    } else {
      StaysCooling(c, states, events, i, j - 1);
      NowIsClock(c, s, e, t);
      if Cooling(s, at, states[i]) && !Wipes(s, e) {
        if Creates(s, e) {
          CoolingSlips(c, s, e, t, at, states[i]);
          assert SlipsIn(states, events, i, j - 1);
        } else {
          ClockGrows(c, states, events, i + 1, j - 1);
          NowIsClock(c, states[i], events[i], states[i + 1]);
          CoolingKept(c, s, e, t, at, states[i]);
        }
      }
    }
    hide SlipsIn, InFlight, IsPath;
  }

  /**
    After an ordinary failure no reader that began to read since, and found no newer job of another key, decides to
    enqueue within the backoff, unless a job was created or the row was written about again in between.
   */
  lemma NoDecisionWithinBackoff(c: Config, states: seq<State>, events: seq<Event>, i: nat, j: nat)
    requires IsPath(c, states, events) && i < j < |events| && Failed(states[i + 1].row, events[i].now)
    requires DecidesEnqueue(c, states[j], events[j])
    requires !InFlight(states[i], events[j].reader) && !Masked(states[j], events[j].reader)
    ensures BackoffOver(c, events[i].now, events[j].now)
      || SlipsBetween(states, events, i, j) || WipedBetween(states, events, i, j)
  {
    var at, s, e, t := events[i].now, states[j], events[j], states[j + 1];
    assert Moves(c, s, e, t);
    StaysCooling(c, states, events, i, j);
    NowIsClock(c, s, e, t);
    if Cooling(s, at, states[i]) {
      assert InFlight(s, e.reader);
      CooledRefuses(c, s, e, t, at);
    }
    hide DecidesEnqueue, IsPath, Moves, Failed, SlipsBetween, WipedBetween, Cooled;
  }

  /**
    After an ordinary failure no job is created within the backoff, unless by then one was created by a reader that was
    in flight at the failure or had found a newer job of another key, or the row was written about again.
   */
  lemma NoCreationWithinBackoff(c: Config, states: seq<State>, events: seq<Event>, i: nat, j: nat)
    requires IsPath(c, states, events) && i < j < |events| && Failed(states[i + 1].row, events[i].now)
    requires Creates(states[j], events[j])
    ensures BackoffOver(c, events[i].now, events[j].now)
      || SlipsBetween(states, events, i, j + 1) || WipedBetween(states, events, i, j)
  {
    var at, s, e, t := events[i].now, states[j], events[j], states[j + 1];
    assert Moves(c, s, e, t);
    StaysCooling(c, states, events, i, j);
    NowIsClock(c, s, e, t);
    hide Cooling, Failed, Moves;
    if Cooling(s, at, states[i]) {
      CoolingSlips(c, s, e, t, at, states[i]);
      assert SlipsIn(states, events, i, j);
    }
    hide IsPath, SlipsIn, WipedBetween;
  }

  /** In particular the first job after the failure. */
  lemma FirstCreationAfterFailure(c: Config, states: seq<State>, events: seq<Event>, i: nat, j: nat)
    requires IsPath(c, states, events) && i < j < |events| && Failed(states[i + 1].row, events[i].now)
    requires Creates(states[j], events[j])
    requires forall m: nat :: i < m < j ==> !Creates(states[m], events[m]) && !Wipes(states[m], events[m])
    ensures BackoffOver(c, events[i].now, events[j].now)
      || InFlight(states[i], events[j].reader) || Masked(states[j], events[j].reader)
  {
    NoCreationWithinBackoff(c, states, events, i, j);
    hide Creates, Wipes, IsPath, Failed, InFlight, Masked;
  }

  // ---- one reader at a time ----

  /** While a reader is in flight, only that reader acts. */
  ghost predicate Atomic(states: seq<State>, events: seq<Event>) {
    && |states| == |events| + 1
    && forall k, r :: 0 <= k < |events| && InFlight(states[k], r) ==> IsReaders(events[k]) && events[k].reader == r
  }

  /** Then no job is created within the lifetime of a score, but on a risen rating or after an older publication. */
  lemma AtomicKeepsTtl(c: Config, states: seq<State>, events: seq<Event>, i: nat, j: nat)
    requires IsPath(c, states, events) && Atomic(states, events) && i < j < |events|
    requires events[i].Publish? && Creates(states[j], events[j])
    ensures TtlOver(c, events[i].calculatedAt, events[j].now) || RoseBetween(c, states, events, i, j, events[j].reader)
      || OutdatedBetween(events, i, j, events[i].calculatedAt)
  {
    NoCreationWithinTtl(c, states, events, i, j);
    hide Creates, IsPath, RoseBetween, OutdatedBetween, InFlight;
  }

  /**
    And the first job within the backoff is created by a reader that found a newer job of another key, or that wrote
    the failure itself when it gave up a stale row or left a placeholder.
   */
  lemma AtomicKeepsBackoff(c: Config, states: seq<State>, events: seq<Event>, i: nat, j: nat)
    requires IsPath(c, states, events) && Atomic(states, events) && i < j < |events|
    requires Failed(states[i + 1].row, events[i].now) && Creates(states[j], events[j])
    requires forall m: nat :: i < m < j ==> !Creates(states[m], events[m]) && !Wipes(states[m], events[m])
    ensures BackoffOver(c, events[i].now, events[j].now) || Masked(states[j], events[j].reader)
      || (IsReaders(events[i]) && events[i].reader == events[j].reader)
  {
    FirstCreationAfterFailure(c, states, events, i, j);
    hide Creates, Wipes, IsPath, Failed, InFlight, Masked;
  }
}
