/** Paths that lead to two open executions of one job, from any state in which a row has ended under an execution. */
module JobRaces {
  import opened Wrappers
  import opened ScoreRefresh
  import opened JobRows
  import opened JobClaims
  import opened JobOverlaps

  // ---- an enqueuer that nobody disturbs ----

  /** The row is missing, has ended, or is queued for too long; a first look leaves it as `found`. */
  predicate Claimable(rows: Rows, key: Key, now: int, found: Entry) {
    if key !in rows then found == Entry(Placeholder(now), 0)
    else if IsLive(rows[key].row) then
      IsStaleQueued(rows[key].row, now) && found == rows[key].(row := GivenUp(rows[key].row, rows[key].row, now))
    else found == rows[key]
  }

  function Claimed(found: Entry, now: int): Entry {
    Entry(Requeued(now, true), found.claims + 1)
  }

  function Seen(rows: Rows, key: Key): Option<Row> {
    if key in rows then Some(rows[key].row) else None
  }

  lemma TurnsToClaim(rows: Rows, key: Key, now: int, found: Entry)
    requires Claimable(rows, key, now, found)
    ensures EnqueueTurn(rows, key, Called, now, Taken) == Turn(rows, Looked(Seen(rows, key)), false)
    ensures EnqueueTurn(rows, key, Looked(Seen(rows, key)), now, Taken) == Turn(rows[key := found], Resolved, false)
    ensures EnqueueTurn(rows[key := found], key, Resolved, now, Taken) == Turn(rows[key := found], Checked, false)
  {
    assert key in rows ==> rows[key := rows[key]] == rows;
  }

  lemma TurnsFromClaim(rows: Rows, key: Key, now: int, found: Entry)
    requires !IsLive(found.row)
    ensures EnqueueTurn(rows[key := found], key, Checked, now, Taken)
         == Turn(rows[key := Claimed(found, now)], Won(found.claims + 1), false)
    ensures EnqueueTurn(rows[key := Claimed(found, now)], key, Won(found.claims + 1), now, Taken)
         == Turn(rows[key := Claimed(found, now)], Returned(true), true)
  {
    assert rows[key := found][key := Claimed(found, now)] == rows[key := Claimed(found, now)];
  }

  /** `s` with the enqueuer at this point, and these rows and messages. */
  function At(s: State, pid: Pid, key: Key, pc: EnqueuePc, rows: Rows, messages: Messages): State {
    State(rows, s.enqueuers[pid := Enqueuer(key, pc)], messages)
  }

  lemma ActStep(s: State, pid: Pid, key: Key, pc: EnqueuePc, now: int, rows: Rows, messages: Messages)
    requires CanAct(rows, key, pc)
    ensures var turn := EnqueueTurn(rows, key, pc, now, Taken);
      Moves(At(s, pid, key, pc, rows, messages), Act(pid, now, Taken),
            At(s, pid, key, turn.pc, turn.rows, Publish(messages, key, pc, turn.publishes)))
  {
    hide EnqueueTurn;
    var turn := EnqueueTurn(rows, key, pc, now, Taken);
    assert s.enqueuers[pid := Enqueuer(key, pc)][pid := Enqueuer(key, turn.pc)] ==
      s.enqueuers[pid := Enqueuer(key, turn.pc)];
  }

  function EnqueueEvents(pid: Pid, key: Key, now: int): seq<Event> {
    var act := Act(pid, now, Taken);
    [Call(pid, key), act, act, act, act, act]
  }

  function EnqueueStates(s: State, pid: Pid, key: Key, now: int, found: Entry): seq<State> {
    var n := found.claims + 1;
    var seen, claimed := s.rows[key := found], s.rows[key := Claimed(found, now)];
    [s, At(s, pid, key, Called, s.rows, s.messages), At(s, pid, key, Looked(Seen(s.rows, key)), s.rows, s.messages),
     At(s, pid, key, Resolved, seen, s.messages), At(s, pid, key, Checked, seen, s.messages),
     At(s, pid, key, Won(n), claimed, s.messages),
     At(s, pid, key, Returned(true), claimed, s.messages[(key, n) := Waiting])]
  }

  /** A new enqueuer that finds a claimable row claims it and puts its message into the queue. */
  lemma Enqueues(s: State, pid: Pid, key: Key, now: int, found: Entry)
    requires pid !in s.enqueuers && Claimable(s.rows, key, now, found)
    ensures IsPath(EnqueueStates(s, pid, key, now, found), EnqueueEvents(pid, key, now))
  {
    var n := found.claims + 1;
    var seen, claimed := s.rows[key := found], s.rows[key := Claimed(found, now)];
    assert !IsLive(found.row);
    TurnsToClaim(s.rows, key, now, found);
    TurnsFromClaim(s.rows, key, now, found);
    assert Moves(s, Call(pid, key), At(s, pid, key, Called, s.rows, s.messages));
    hide EnqueueTurn, Claimable, Claimed, Moves, At, Seen;
    ActStep(s, pid, key, Called, now, s.rows, s.messages);
    ActStep(s, pid, key, Looked(Seen(s.rows, key)), now, s.rows, s.messages);
    ActStep(s, pid, key, Resolved, now, seen, s.messages);
    ActStep(s, pid, key, Checked, now, seen, s.messages);
    ActStep(s, pid, key, Won(n), now, claimed, s.messages);
  }

  /** If the row had ended, no step of it gives anything up, ends anything, or loses a reply. */
  lemma EnqueuesQuietly(s: State, pid: Pid, key: Key, now: int, found: Entry)
    requires pid !in s.enqueuers && key in s.rows && !IsLive(s.rows[key].row) && found == s.rows[key]
    ensures IsQuietPath(EnqueueStates(s, pid, key, now, found), EnqueueEvents(pid, key, now), key)
  {
    Enqueues(s, pid, key, now, found);
  }

  lemma FreshPid(enqueuers: map<Pid, Enqueuer>) returns (pid: Pid)
    ensures pid !in enqueuers
  {
    pid := 0;
    var left := enqueuers.Keys;
    while pid in enqueuers
      invariant left <= enqueuers.Keys
      invariant forall q :: q in enqueuers && q >= pid ==> q in left
      decreases left
    {
      left := left - {pid};
      pid := pid + 1;
    }
  }

  /** A state in which an execution is open under an ended row leads to two open ones, by a new enqueuer alone. */
  lemma EndedUnderOpen(s: State, key: Key, n: nat, now: int) returns (states: seq<State>, events: seq<Event>)
    requires Owned(s) && Open(s, key, n) && !Live(s.rows, key)
    ensures IsQuietPath(states, events, key) && states[0] == s && TwoOpen(states[|events|], key)
  {
    assert key in s.rows && n <= s.rows[key].claims;
    var pid := FreshPid(s.enqueuers);
    var found := s.rows[key];
    EnqueuesQuietly(s, pid, key, now, found);
    states, events := EnqueueStates(s, pid, key, now, found), EnqueueEvents(pid, key, now);
    var t, k := states[6], found.claims + 1;
    assert Pending(t, key, k) && Open(t, key, k);
    assert Open(t, key, n) by {
      if pid' :| Holds(s, pid', key, n) {
        assert Holds(t, pid', key, n);
      }
    }
    hide IsQuietPath, Owned, EnqueueTurn;
  }

  /**
    From a state where no lost reply is pending, two executions of the key can come to be open at once without any of
    those steps exactly when the state is already broken: an execution is open under an ended row, or two are open.
   */
  lemma CanOverlapExactly(s: State, key: Key)
    requires Owned(s) && !LostReply(s, key)
    ensures (exists states, events ::
               IsQuietPath(states, events, key) && states[0] == s && TwoOpen(states[|events|], key))
            <==> !Alone(s, key)
  {
    if states, events :| IsQuietPath(states, events, key) && states[0] == s && TwoOpen(states[|events|], key) {
      if Alone(s, key) {
        AloneUntilBroken(states, events, key, |events|);
      }
    }
    if TwoOpen(s, key) {
      assert IsQuietPath([s], [], key);
    } else if !Alone(s, key) {
      var n: nat :| Open(s, key, n) && !Live(s.rows, key);
      var states, events := EndedUnderOpen(s, key, n, 0);
    }
    hide IsPath, TwoOpen, Owned, LostReply, Open, Ends, IsQuiet, Live;
  }

  // ---- how a state breaks ----

  lemma JoinPaths(states: seq<State>, events: seq<Event>, states': seq<State>, events': seq<Event>)
    requires IsPath(states, events) && IsPath(states', events') && states[|events|] == states'[0]
    ensures IsPath(states[..|events|] + states', events + events')
  {
    var ss, es := states[..|events|] + states', events + events';
    forall i | 0 <= i < |es|
      ensures Moves(ss[i], es[i], ss[i + 1])
    {
      if i < |events| {
        assert Moves(states[i], events[i], states[i + 1]);
        assert ss[i + 1] == states[i + 1];
      } else {
        assert Moves(states'[i - |events|], events'[i - |events|], states'[i - |events| + 1]);
      }
    }
    hide Moves;
  }

  /** An enqueuer that finds an open execution's row queued for too long gives it up and claims the next one. */
  lemma StaleRecoveryOverlaps(s: State, pid: Pid, key: Key, n: nat, now: int)
      returns (states: seq<State>, events: seq<Event>)
    requires Owned(s) && Open(s, key, n) && pid !in s.enqueuers && key in s.rows && IsStaleQueued(s.rows[key].row, now)
    ensures IsPath(states, events) && states[0] == s && TwoOpen(states[|events|], key)
    ensures states[|events|].messages == s.messages[(key, s.rows[key].claims + 1) := Waiting]
    ensures states[|events|].rows == s.rows[key := Entry(Requeued(now, true), s.rows[key].claims + 1)]
  {
    var found := s.rows[key].(row := GivenUp(s.rows[key].row, s.rows[key].row, now));
    assert n <= found.claims;
    Enqueues(s, pid, key, now, found);
    states, events := EnqueueStates(s, pid, key, now, found), EnqueueEvents(pid, key, now);
    var t, k := states[6], found.claims + 1;
    assert Open(t, key, k);
    assert Open(t, key, n) by {
      if pid' :| Holds(s, pid', key, n) {
        assert Holds(t, pid', key, n);
      }
    }
    hide IsPath, Owned, GivenUp, EnqueueTurn;
  }

  /** An enqueuer whose `add` fails after the queue took the message ends the row under its own execution. */
  lemma LostReplyEnds(s: State, pid: Pid, key: Key, n: nat, now: int) returns (states: seq<State>, events: seq<Event>)
    requires Asks(s, pid, key, n) && Live(s.rows, key)
    ensures IsPath(states, events) && states[0] == s
    ensures !Live(states[|events|].rows, key) && Open(states[|events|], key, n)
  {
    var lost, act := Act(pid, now, Lost), Act(pid, now, Taken);
    var t := Step(s, lost);
    var u := Step(t, act);
    assert t.enqueuers[pid] == Enqueuer(key, AddFailed(n)) && t.rows == s.rows && Pending(t, key, n);
    assert u.enqueuers[pid] == Enqueuer(key, MarkingFailed(n)) && u.rows == s.rows && u.messages == t.messages;
    var v := Step(u, act);
    assert Pending(v, key, n) && !Live(v.rows, key);
    states, events := [s, t, u, v], [lost, act, act];
    hide Step, Asks, Live, Pending, Holds;
  }

  /** A worker that takes a message finds the row of its key alive and fresh, and runs the job. */
  lemma Runs(s: State, key: Key, n: nat, now: int) returns (states: seq<State>, events: seq<Event>)
    requires key in s.rows && (key, n) in s.messages && s.messages[(key, n)] == Waiting
    requires IsLive(s.rows[key].row) && !IsStale(s.rows[key].row, now)
    ensures IsPath(states, events) && states[0] == s && states[|events|].messages == s.messages[(key, n) := Running]
    ensures states[|events|].rows == WithRow(s.rows, key, s.rows[key].row.(status := ACTIVE, startedAt := Some(now)))
  {
    var row, e := s.rows[key].row, Process(key, n, now, Success);
    var rows := WithRow(s.rows, key, row.(status := ACTIVE, startedAt := Some(now)));
    var t, u := s.(messages := s.messages[(key, n) := Found(row)]), s.(messages := s.messages[(key, n) := Passed]);
    var v := s.(messages := s.messages[(key, n) := Running], rows := rows);
    assert Moves(s, e, t);
    assert Moves(t, e, u) by {
      assert t.messages[(key, n) := Passed] == u.messages;
    }
    assert Moves(u, e, v) by {
      assert u.messages[(key, n) := Running] == v.messages;
    }
    states, events := [s, t, u, v], [e, e, e];
    hide Moves, WithRow;
  }

  const LATER: int := STALE_QUEUED_MS + 1

  /** A run in which two workers come to run the same job at once. */
  lemma TwoWorkersOneJob(key: Key) returns (states: seq<State>, events: seq<Event>)
    ensures IsRun(states, events)
    ensures states[|events|].messages == map[(key, 1) := Running, (key, 2) := Running]
  {
    var initial, found := State(map[], map[], map[]), Entry(Placeholder(0), 0);
    Enqueues(initial, 1, key, 0, found);
    var states0, events0 := EnqueueStates(initial, 1, key, 0, found), EnqueueEvents(1, key, 0);
    var s := states0[6];
    OwnedAtFirst();
    RunOwned(states0, events0, 6);
    assert s.rows == map[key := Entry(Requeued(0, true), 1)] && s.messages == map[(key, 1) := Waiting];
    assert Pending(s, key, 1) && Open(s, key, 1) && s.enqueuers.Keys == {1};
    var states1, events1 := StaleRecoveryOverlaps(s, 2, key, 1, LATER);
    hide IsPath, Owned, Open, EnqueueEvents, EnqueueStates, TwoOpen;
    JoinPaths(states0, events0, states1, events1);
    var states2, events2 := TwoRun(states1[|events1|], key, LATER);
    states, events := states0[..|events0|] + states1, events0 + events1;
    JoinPaths(states, events, states2, events2);
    states, events := states[..|events|] + states2, events + events2;
  }

  lemma TwoRun(s: State, key: Key, now: int) returns (states: seq<State>, events: seq<Event>)
    requires s.messages == map[(key, 1) := Waiting, (key, 2) := Waiting]
    requires key in s.rows && s.rows[key].row == Requeued(now, true)
    ensures IsPath(states, events) && states[0] == s
    ensures states[|events|].messages == map[(key, 1) := Running, (key, 2) := Running]
  {
    var states1, events1 := Runs(s, key, 1, now);
    var t := states1[|events1|];
    assert t.messages == map[(key, 1) := Running, (key, 2) := Waiting];
    var states2, events2 := Runs(t, key, 2, now);
    hide IsPath;
    JoinPaths(states1, events1, states2, events2);
    states, events := states1[..|events1|] + states2, events1 + events2;
  }
}
