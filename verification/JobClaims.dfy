/**
  The job rows behind an enqueue (apps/worker/src/persistence/job-repository.ts and apps/worker/src/orchestration/
  enqueue.ts). Any number of enqueuers and workers share the rows, every statement is one atomic step, steps interleave
  freely, anyone may stop for good, and other code may write any row between two steps.
 */
module JobClaims {
  import opened Wrappers
  import opened ScoreRefresh
  import opened JobRows

  type Key = string
  type Pid = nat

  /** One row a dedupe key. `claims` counts the executions, as the unique queue job id of each does. */
  datatype Entry = Entry(row: Row, claims: nat)

  /** Where a call of `persistAndEnqueue` waits; `Won` and what follows belong to one execution. */
  datatype EnqueuePc =
    | Called
    | Looked(seen: Option<Row>)
    | Resolved
    | Checked
    | Won(n: nat)
    | AddFailed(n: nat)
    | MarkingFailed(n: nat)
    | Returned(enqueued: bool)
    | Threw

  datatype Enqueuer = Enqueuer(key: Key, pc: EnqueuePc)

  /** Where the queue message of an execution is, or the worker that took it. */
  datatype MessagePc =
    | Waiting
    | Found(seen: Row)
    | Resurrecting
    | Passed
    | Running
    | Closed

  type Rows = map<Key, Entry>

  type Messages = map<(Key, nat), MessagePc>

  datatype State = State(rows: Rows, enqueuers: map<Pid, Enqueuer>, messages: Messages)

  /** An `add` may also fail although the queue has taken the message. */
  datatype Added = Taken | Refused | Lost

  predicate Live(rows: Rows, key: Key) {
    key in rows && IsLive(rows[key].row)
  }

  function WithRow(rows: Rows, key: Key, row: Row): Rows
    requires key in rows
  {
    rows[key := rows[key].(row := row)]
  }

  /** What one step of an enqueuer does: the rows, its next point, and whether it puts a message into the queue. */
  datatype Turn = Turn(rows: Rows, pc: EnqueuePc, publishes: bool)

  predicate CanAct(rows: Rows, key: Key, pc: EnqueuePc) {
    match pc
    case Called => true
    case Looked(seen) => seen.Some? ==> key in rows
    case Returned(_) => false
    case Threw => false
    case _ => key in rows
  }

  function EnqueueTurn(rows: Rows, key: Key, pc: EnqueuePc, now: int, added: Added): Turn
    requires CanAct(rows, key, pc)
  {
    match pc
    case Called => Turn(rows, Looked(if key in rows then Some(rows[key].row) else None), false)
    case Looked(None) =>
      // the key is unique: the second of two creators fails
      if key in rows then Turn(rows, Threw, false)
      else Turn(rows[key := Entry(Placeholder(now), 0)], Resolved, false)
    case Looked(Some(seen)) =>
      if IsStale(seen, now) then Turn(WithRow(rows, key, GivenUp(seen, rows[key].row, now)), Resolved, false)
      else Turn(rows, if IsLive(seen) then Returned(false) else Resolved, false)
    case Resolved => Turn(rows, if Live(rows, key) then Returned(false) else Checked, false)
    case Checked =>
      if Live(rows, key) then Turn(rows, Returned(false), false)
      else
        var n := rows[key].claims + 1;
        Turn(rows[key := Entry(Requeued(now, true), n)], Won(n), false)
    case Won(n) => if added.Taken? then Turn(rows, Returned(true), true) else Turn(rows, AddFailed(n), added.Lost?)
    case AddFailed(n) =>
      var status := rows[key].row.status;
      Turn(rows, if status.COMPLETED? || status.CANCELLED? then Returned(false) else MarkingFailed(n), false)
    case MarkingFailed(_) =>
      var failed := rows[key].row.(status := FAILED, startedAt := None, finishedAt := Some(now),
                                   errorCode := Some(ENQUEUE_FAILED));
      Turn(WithRow(rows, key, failed), Returned(false), false)
  }

  /** How an execution comes out, should it be at its end. */
  datatype Outcome = Success | Failure(code: Option<string>)

  /** What one step of a worker does with a message. */
  datatype Work = Work(rows: Rows, pc: MessagePc)

  function WorkTurn(rows: Rows, key: Key, pc: MessagePc, now: int, outcome: Outcome): Work
    requires key in rows
  {
    var row := rows[key].row;
    match pc
    case Waiting => Work(rows, Found(row))
    case Found(seen) =>
      if IsStale(seen, now) then Work(WithRow(rows, key, GivenUp(seen, row, now)), Resurrecting)
      else if IsLive(seen) then Work(rows, Passed)
      else if seen.status.FAILED? && seen.errorCode == Some(SUPERSEDED) then Work(rows, Closed)
      else Work(rows, Resurrecting)
    case Resurrecting => Work(WithRow(rows, key, Requeued(now, false)), Passed)
    case Passed => Work(WithRow(rows, key, row.(status := ACTIVE, startedAt := Some(now))), Running)
    case Running =>
      Work(if outcome.Success? || IsLive(row) then WithRow(rows, key, Finished(row, now, outcome)) else rows, Closed)
    case Closed => Work(rows, Closed)
  }

  function Finished(row: Row, now: int, outcome: Outcome): Row {
    if outcome.Success? then row.(status := COMPLETED, finishedAt := Some(now), errorCode := None)
    else if row.cancelRequested then
      row.(status := CANCELLED, finishedAt := Some(now), errorCode := Some(CANCELLED_CODE))
    else row.(status := FAILED, finishedAt := Some(now), errorCode := outcome.code)
  }

  datatype Event =
    | Call(pid: Pid, key: Key)
    | Act(pid: Pid, now: int, added: Added)
    | Process(key: Key, n: nat, now: int, outcome: Outcome)
    | Write(key: Key, row: Row)

  predicate Enabled(s: State, e: Event) {
    match e
    case Call(pid, _) => pid !in s.enqueuers
    case Act(pid, _, _) => pid in s.enqueuers && CanAct(s.rows, s.enqueuers[pid].key, s.enqueuers[pid].pc)
    case Process(key, n, _, _) => (key, n) in s.messages && key in s.rows && !s.messages[(key, n)].Closed?
    case Write(key, _) => key in s.rows
  }

  function Publish(messages: Messages, key: Key, pc: EnqueuePc, publishes: bool): Messages {
    if publishes && pc.Won? then messages[(key, pc.n) := Waiting] else messages
  }

  function Step(s: State, e: Event): State
    requires Enabled(s, e)
  {
    match e
    case Call(pid, key) => s.(enqueuers := s.enqueuers[pid := Enqueuer(key, Called)])
    case Act(pid, now, added) =>
      var Enqueuer(key, pc) := s.enqueuers[pid];
      var turn := EnqueueTurn(s.rows, key, pc, now, added);
      State(turn.rows, s.enqueuers[pid := Enqueuer(key, turn.pc)], Publish(s.messages, key, pc, turn.publishes))
    case Process(key, n, now, outcome) =>
      var work := WorkTurn(s.rows, key, s.messages[(key, n)], now, outcome);
      s.(rows := work.rows, messages := s.messages[(key, n) := work.pc])
    case Write(key, row) => s.(rows := WithRow(s.rows, key, row))
  }

  ghost predicate Moves(s: State, e: Event, t: State) {
    Enabled(s, e) && t == Step(s, e)
  }

  /** `states[i]` is the state before event `i`. */
  ghost predicate IsPath(states: seq<State>, events: seq<Event>) {
    && |states| == |events| + 1
    && forall i :: 0 <= i < |events| ==> Moves(states[i], events[i], states[i + 1])
  }

  ghost predicate IsRun(states: seq<State>, events: seq<Event>) {
    IsPath(states, events) && states[0] == State(map[], map[], map[])
  }

  // ---- who owns an execution ----

  /** The execution an enqueuer has won and not yet put into the queue or given back. */
  function HeldBy(pc: EnqueuePc): Option<nat> {
    match pc
    case Won(n) => Some(n)
    case AddFailed(n) => Some(n)
    case MarkingFailed(n) => Some(n)
    case _ => None
  }

  predicate Holds(s: State, pid: Pid, key: Key, n: nat) {
    pid in s.enqueuers && s.enqueuers[pid].key == key && HeldBy(s.enqueuers[pid].pc) == Some(n)
  }

  /** The event is a winning claim of the key. */
  predicate Wins(s: State, e: Event, key: Key) {
    && e.Act? && e.pid in s.enqueuers && s.enqueuers[e.pid] == Enqueuer(key, Checked)
    && key in s.rows && !Live(s.rows, key)
  }

  /** The enqueuer has won the execution and not yet asked the queue. */
  predicate Asks(s: State, pid: Pid, key: Key, n: nat) {
    pid in s.enqueuers && s.enqueuers[pid] == Enqueuer(key, Won(n))
  }

  /** Executions are numbered by the claims so far, none has two owners, and the queue is asked but once. */
  ghost predicate Owned(s: State) {
    && (forall pid, key, n: nat :: Holds(s, pid, key, n) ==> key in s.rows && n <= s.rows[key].claims)
    && (forall pid, key, n: nat :: Asks(s, pid, key, n) ==> (key, n) !in s.messages)
    && (forall p, q, key, n: nat :: Holds(s, p, key, n) && Holds(s, q, key, n) ==> p == q)
    && (forall key, n: nat :: (key, n) in s.messages ==> key in s.rows && n <= s.rows[key].claims)
  }

  /** Rows stay, their claims never fall, and only a winning claim raises them, by one. */
  lemma ClaimsGrow(s: State, e: Event, t: State, key: Key)
    requires Moves(s, e, t) && key in s.rows
    ensures key in t.rows
    ensures t.rows[key].claims == s.rows[key].claims + if Wins(s, e, key) then 1 else 0
  {
    hide IsStale, IsLive, GivenUp, Requeued, Finished;
  }

  lemma HoldsStep(s: State, e: Event, t: State, pid: Pid, key: Key, n: nat)
    requires Moves(s, e, t) && Holds(t, pid, key, n)
    ensures Holds(s, pid, key, n)
      || (Wins(s, e, key) && e.pid == pid && key in s.rows && key in t.rows &&
          n == s.rows[key].claims + 1 == t.rows[key].claims)
  {
    hide IsStale, IsLive, GivenUp, Requeued, WorkTurn;
  }

  lemma AsksStep(s: State, e: Event, t: State, pid: Pid, key: Key, n: nat)
    requires Moves(s, e, t) && Asks(t, pid, key, n)
    ensures (Asks(s, pid, key, n) && !(e.Act? && e.pid == pid)) || (Wins(s, e, key) && n == s.rows[key].claims + 1)
  {
    hide IsStale, IsLive, GivenUp, Requeued, WorkTurn;
  }

  lemma MessageStep(s: State, e: Event, t: State, key: Key, n: nat)
    requires Moves(s, e, t) && (key, n) in t.messages
    ensures (key, n) in s.messages || (e.Act? && Asks(s, e.pid, key, n) && t.messages[(key, n)] == Waiting)
  {
    hide IsStale, IsLive, GivenUp, Requeued, WorkTurn;
  }

  lemma AskerHolds(s: State, pid: Pid, key: Key, n: nat)
    requires Asks(s, pid, key, n)
    ensures Holds(s, pid, key, n)
  {
  }

  lemma AsksKept(s: State, e: Event, t: State, pid: Pid, key: Key, n: nat)
    requires Owned(s) && Moves(s, e, t) && Asks(t, pid, key, n)
    ensures (key, n) !in t.messages
  {
    AsksStep(s, e, t, pid, key, n);
    if (key, n) in t.messages {
      MessageStep(s, e, t, key, n);
      if (key, n) !in s.messages {
        AskerHolds(s, e.pid, key, n);
        if Asks(s, pid, key, n) {
          AskerHolds(s, pid, key, n);
        }
      }
    }
    hide Moves, Holds, Wins, Asks;
  }

  lemma OwnedKept(s: State, e: Event, t: State)
    requires Owned(s) && Moves(s, e, t)
    ensures Owned(t)
  {
    hide Moves, Holds, Wins, Asks;
    forall pid, key, n: nat | Holds(t, pid, key, n)
      ensures key in t.rows && n <= t.rows[key].claims
    {
      HoldsStep(s, e, t, pid, key, n);
      if key in s.rows {
        ClaimsGrow(s, e, t, key);
      }
    }
    forall pid, key, n: nat | Asks(t, pid, key, n)
      ensures (key, n) !in t.messages
    {
      AsksKept(s, e, t, pid, key, n);
    }
    forall p, q, key, n: nat | Holds(t, p, key, n) && Holds(t, q, key, n)
      ensures p == q
    {
      HoldsStep(s, e, t, p, key, n);
      HoldsStep(s, e, t, q, key, n);
    }
    forall key, n: nat | (key, n) in t.messages
      ensures key in t.rows && n <= t.rows[key].claims
    {
      MessageStep(s, e, t, key, n);
      if (key, n) !in s.messages {
        AskerHolds(s, e.pid, key, n);
      }
      ClaimsGrow(s, e, t, key);
    }
  }

  lemma {:induction false} RunOwned(states: seq<State>, events: seq<Event>, i: nat)
    requires IsPath(states, events) && Owned(states[0]) && i <= |events|
    ensures Owned(states[i])
  {
    if i > 0 {
      RunOwned(states, events, i - 1);
      assert Moves(states[i - 1], events[i - 1], states[i]);
      OwnedKept(states[i - 1], events[i - 1], states[i]);
    }
    hide Moves;
  }

  lemma OwnedAtFirst()
    ensures Owned(State(map[], map[], map[]))
  {
  }

  // ---- between two claims ----

  /** The row of the key ends at this step. */
  predicate Ends(s: State, t: State, key: Key) {
    Live(s.rows, key) && !Live(t.rows, key)
  }

  lemma WinStarts(s: State, e: Event, t: State, key: Key)
    requires Moves(s, e, t) && Wins(s, e, key)
    ensures Live(t.rows, key) && !Live(s.rows, key)
    ensures Holds(t, e.pid, key, s.rows[key].claims + 1)
    ensures t.messages == s.messages
    ensures forall pid :: pid != e.pid ==> (pid in t.enqueuers <==> pid in s.enqueuers)
    ensures forall pid :: pid != e.pid && pid in s.enqueuers ==> t.enqueuers[pid] == s.enqueuers[pid]
  {
  }

  lemma {:induction false} EndsBetween(states: seq<State>, key: Key, i: nat, j: nat)
    requires i <= j < |states| && Live(states[i].rows, key) && !Live(states[j].rows, key)
    ensures exists m: nat :: i <= m < j && Ends(states[m], states[m + 1], key)
  {
    hide Live;
    if Live(states[j - 1].rows, key) {
      assert Ends(states[j - 1], states[j], key);
    } else {
      EndsBetween(states, key, i, j - 1);
    }
  }

  /** For all interleavings, between two winning claims of a key its row has ended. */
  lemma ClaimsSeparated(states: seq<State>, events: seq<Event>, key: Key, i: nat, j: nat)
    requires IsPath(states, events) && i < j < |events| && Wins(states[i], events[i], key) &&
      Wins(states[j], events[j], key)
    ensures exists m: nat :: i < m < j && Ends(states[m], states[m + 1], key)
  {
    assert Moves(states[i], events[i], states[i + 1]) && Moves(states[j], events[j], states[j + 1]);
    hide Moves, Wins, Live, Ends;
    WinStarts(states[i], events[i], states[i + 1], key);
    WinStarts(states[j], events[j], states[j + 1], key);
    EndsBetween(states, key, i + 1, j);
  }
}
