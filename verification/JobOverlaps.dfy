/**
  When two executions of one job are open at once, over every run of `JobClaims`: exactly where a row has been ended
  under an execution, which three kinds of steps can do.
 */
module JobOverlaps {
  import opened Wrappers
  import opened ScoreRefresh
  import opened JobRows
  import opened JobClaims

  /** The message is in the queue, or a worker is at it. */
  predicate Pending(s: State, key: Key, n: nat) {
    (key, n) in s.messages && !s.messages[(key, n)].Closed?
  }

  /** The execution is held by its winner, or has a message that is not closed. */
  ghost predicate Open(s: State, key: Key, n: nat) {
    (exists pid :: Holds(s, pid, key, n)) || Pending(s, key, n)
  }

  lemma ClosedStaysClosed(s: State, e: Event, t: State, key: Key, n: nat)
    requires Owned(s) && Moves(s, e, t) && (key, n) in s.messages && !Pending(s, key, n)
    ensures (key, n) in t.messages && !Pending(t, key, n)
  {
    assert e.Act? ==> !Asks(s, e.pid, key, n);
    hide Owned, IsStale, IsLive, GivenUp, Requeued, Finished;
  }

  /** Only a winning claim opens an execution, and just the one. */
  lemma OpensByWinning(s: State, e: Event, t: State, key: Key, n: nat)
    requires Owned(s) && Moves(s, e, t) && Open(t, key, n)
    ensures Open(s, key, n) || (Wins(s, e, key) && key in s.rows && n == s.rows[key].claims + 1)
  {
    hide Moves, Holds, Wins, Asks, Pending, Owned;
    if pid :| Holds(t, pid, key, n) {
      HoldsStep(s, e, t, pid, key, n);
    } else {
      PendingStep(s, e, t, key, n);
    }
  }

  lemma PendingStep(s: State, e: Event, t: State, key: Key, n: nat)
    requires Owned(s) && Moves(s, e, t) && Pending(t, key, n)
    ensures Pending(s, key, n) || (e.Act? && Holds(s, e.pid, key, n))
  {
    MessageStep(s, e, t, key, n);
    if (key, n) in s.messages {
      if !Pending(s, key, n) {
        ClosedStaysClosed(s, e, t, key, n);
      }
    } else {
      AskerHolds(s, e.pid, key, n);
    }
    hide Moves, Owned, Holds, Asks;
  }

  ghost predicate TwoOpen(s: State, key: Key) {
    exists m: nat, n: nat :: m != n && Open(s, key, m) && Open(s, key, n)
  }

  /** At most one execution of the key is open, and while one is the row is live. */
  ghost predicate Alone(s: State, key: Key) {
    !TwoOpen(s, key) && forall n: nat :: Open(s, key, n) ==> Live(s.rows, key)
  }

  /** The queue has taken a message whose `add` failed, and the enqueuer is about to mark the row for that. */
  ghost predicate LostReply(s: State, key: Key) {
    exists pid, n: nat :: Holds(s, pid, key, n) && (key, n) in s.messages
  }

  /** The step gives up a row that was seen stale: in `resolveForEnqueue`, or in `createOrGetByDedupe`. */
  predicate GivesUp(s: State, e: Event, key: Key) {
    match e
    case Act(pid, now, _) =>
      && pid in s.enqueuers && s.enqueuers[pid].key == key
      && s.enqueuers[pid].pc.Looked? && s.enqueuers[pid].pc.seen.Some? && IsStale(s.enqueuers[pid].pc.seen.value, now)
    case Process(k, n, now, _) =>
      && k == key && (k, n) in s.messages && s.messages[(k, n)].Found? && IsStale(s.messages[(k, n)].seen, now)
    case _ => false
  }

  /** Other code ends the row. */
  predicate EndsFromOutside(s: State, e: Event, key: Key) {
    e.Write? && e.key == key && Live(s.rows, key) && !IsLive(e.row)
  }

  /** The queue takes the message and yet the `add` fails. */
  predicate LosesReply(s: State, e: Event, key: Key) {
    e.Act? && e.added.Lost? && e.pid in s.enqueuers && s.enqueuers[e.pid].key == key && s.enqueuers[e.pid].pc.Won?
  }

  /** None of the three guards that the code would need is missed. */
  predicate IsQuiet(s: State, e: Event, key: Key) {
    !GivesUp(s, e, key) && !EndsFromOutside(s, e, key) && !LosesReply(s, e, key)
  }

  /** A row that ends otherwise is ended by an execution of its own, which is then over. */
  lemma EndsItself(s: State, e: Event, t: State, key: Key) returns (n: nat)
    requires Owned(s) && Moves(s, e, t) && Ends(s, t, key) && IsQuiet(s, e, key) && !LostReply(s, key)
    ensures Open(s, key, n) && !Open(t, key, n)
  {
    hide Finished, GivenUp;
    if e.Act? {
      n := s.enqueuers[e.pid].pc.n;
      assert Holds(s, e.pid, key, n) && !Holds(t, e.pid, key, n);
      assert t.messages == s.messages;
    } else {
      n := e.n;
      assert Pending(s, key, n) && !Pending(t, key, n);
    }
    assert !Wins(s, e, key);
    hide Moves, Holds, Wins, Asks, IsQuiet, Ends;
    if pid :| Holds(t, pid, key, n) {
      HoldsStep(s, e, t, pid, key, n);
    }
  }

  lemma LostReplyStep(s: State, e: Event, t: State, key: Key)
    requires Owned(s) && Moves(s, e, t) && LostReply(t, key)
    ensures LostReply(s, key) || LosesReply(s, e, key)
  {
    var pid, n: nat :| Holds(t, pid, key, n) && (key, n) in t.messages;
    HoldsStep(s, e, t, pid, key, n);
    MessageStep(s, e, t, key, n);
    if (key, n) !in s.messages {
      AskerHolds(s, e.pid, key, n);
      hide Owned, IsStale, IsLive, GivenUp, Requeued, Finished;
    } else {
      hide Moves, Holds, Wins;
    }
  }

  /** The step loses a reply, or ends the row in a way of those three while an execution stays open. */
  ghost predicate Breaks(s: State, e: Event, t: State, key: Key) {
    LosesReply(s, e, key) || (Ends(s, t, key) && !IsQuiet(s, e, key) && exists n: nat :: Open(t, key, n))
  }

  lemma AloneKept(s: State, e: Event, t: State, key: Key)
    requires Owned(s) && Moves(s, e, t) && Alone(s, key) && !LostReply(s, key) && !Breaks(s, e, t, key)
    ensures Alone(t, key) && !LostReply(t, key)
  {
    if LostReply(t, key) {
      LostReplyStep(s, e, t, key);
    }
    if n: nat :| Open(t, key, n) {
      OpensByWinning(s, e, t, key, n);
      if Wins(s, e, key) {
        WinStarts(s, e, t, key);
        assert forall m: nat :: !Open(s, key, m);
      } else if !Live(t.rows, key) {
        var m := EndsItself(s, e, t, key);
      }
    }
    forall m: nat, n: nat | Open(t, key, m) && Open(t, key, n)
      ensures m == n
    {
      OpensByWinning(s, e, t, key, m);
      OpensByWinning(s, e, t, key, n);
      if Wins(s, e, key) {
        WinStarts(s, e, t, key);
      }
    }
    hide Moves, Wins, Live, Open, LosesReply, IsQuiet;
  }

  ghost predicate BreaksBefore(states: seq<State>, events: seq<Event>, key: Key, i: nat) {
    exists m: nat :: m < i <= |events| < |states| && Breaks(states[m], events[m], states[m + 1], key)
  }

  lemma {:induction false} AloneUntilBroken(states: seq<State>, events: seq<Event>, key: Key, i: nat)
    requires IsPath(states, events) && i <= |events|
    requires Owned(states[0]) && Alone(states[0], key) && !LostReply(states[0], key)
    ensures BreaksBefore(states, events, key, i) || (Alone(states[i], key) && !LostReply(states[i], key))
  {
    hide Alone, LostReply, Breaks, Moves, Owned;
    if i > 0 {
      AloneUntilBroken(states, events, key, i - 1);
      RunOwned(states, events, i - 1);
      assert Moves(states[i - 1], events[i - 1], states[i]);
      if !Breaks(states[i - 1], events[i - 1], states[i], key) && !BreaksBefore(states, events, key, i - 1) {
        AloneKept(states[i - 1], events[i - 1], states[i], key);
      }
    }
  }

  lemma AloneAtFirst(key: Key)
    ensures var s := State(map[], map[], map[]); Owned(s) && Alone(s, key) && !LostReply(s, key)
  {
    OwnedAtFirst();
  }

  /**
    In every run, two executions of a key are open at once only after the reply of an `add` was lost, or after a row
    was given up, or ended by other code, while an execution of it was open.
   */
  lemma TwoOpenOnlyAfter(states: seq<State>, events: seq<Event>, key: Key, i: nat)
    requires IsRun(states, events) && i <= |events| && TwoOpen(states[i], key)
    ensures BreaksBefore(states, events, key, i)
  {
    AloneAtFirst(key);
    AloneUntilBroken(states, events, key, i);
    hide IsPath, Breaks, TwoOpen, LostReply, Owned;
  }

  ghost predicate IsQuietPath(states: seq<State>, events: seq<Event>, key: Key) {
    IsPath(states, events) && forall i :: 0 <= i < |events| ==> IsQuiet(states[i], events[i], key)
  }

  /**
    So in a run in which no step sees a stale row of the key, no other code ends it, and no reply is lost, two
    executions are never open at once, and an open one has a live row.
   */
  lemma QuietRunsAlone(states: seq<State>, events: seq<Event>, key: Key, i: nat)
    requires IsRun(states, events) && IsQuietPath(states, events, key) && i <= |events|
    ensures Alone(states[i], key)
  {
    AloneAtFirst(key);
    AloneUntilBroken(states, events, key, i);
    hide IsPath, TwoOpen, LostReply, Owned, Alone, Ends, Open;
  }
}
