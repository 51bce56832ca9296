/**
  Profile reads that refresh a score (apps/api/src/services/character-service.ts), one step for every await: a reader
  reads the published score, the product score and the jobs of the character, decides, and if so enqueues. Workers,
  recovery of stale rows, and administrators write whenever they like.
 */
module RefreshProtocol {
  import opened Wrappers
  import opened ScoreRefresh
  import opened JobRows

  datatype Config = Config(ttlSeconds: int, backoffSeconds: int)

  /** What `findActiveForCharacter` has come to: it gives up a stale row before it answers that there is none. */
  datatype Active = Unasked | Stale(seen: Row) | Answer(status: Option<JobStatus>)

  datatype Pc =
    | Reading
    | Decided
    | Rechecking(seen: Row)
    | Looking
    | Resolving(seen: Row)
    | Claiming
    | Done

  /** A reader and what it has read; `masked` says that its latest job is one of another key. */
  datatype Reader = Reader(pc: Pc, snapshot: Option<int>, product: Option<Option<int>>, active: Active,
                           latest: Option<Option<Row>>, masked: bool)

  /** The job row of the contract, which every execution uses again, and when the stored scores were calculated. */
  datatype State = State(row: Option<Row>, snapshot: Option<int>, product: Option<int>, clock: int,
                         readers: map<nat, Reader>)

  /**
    What a search by character finds may be a job of another key: then `other` is its answer, and `foreign` says that
    the job is of another contract. The events after `Drop` are not of readers.
   */
  datatype Event =
    | ReadSnapshot(reader: nat, now: int)
    | ReadProduct(reader: nat, now: int)
    | FindActive(reader: nat, now: int, otherActive: Option<Option<JobStatus>>)
    | FindLatest(reader: nat, now: int, otherLatest: Option<Row>)
    | GiveUp(reader: nat, now: int)
    | Conclude(reader: nat, now: int, ratingDelta: Option<real>, gradeIsU: bool, contractReasons: seq<string>,
               providerNewer: bool)
    | Recheck(reader: nat, now: int, foreign: bool)
    | Resolve(reader: nat, now: int)
    | Claim(reader: nat, now: int)
    | Drop(reader: nat, now: int)
    | Publish(now: int, calculatedAt: int)
    | Rescore(now: int, calculated: Option<int>)
    | Start(now: int)
    | Succeed(now: int)
    | Cancel(now: int)
    | Fail(now: int, errorCode: Option<string>, stamped: bool)
    | RequestCancel(now: int)
    | Requeue(now: int, named: bool)
    | Attach(now: int)

  predicate IsReaders(e: Event) {
    || e.ReadSnapshot? || e.ReadProduct? || e.FindActive? || e.FindLatest? || e.GiveUp?
    || e.Conclude? || e.Recheck? || e.Resolve? || e.Claim? || e.Drop?
  }

  predicate Live(row: Option<Row>) {
    row.Some? && IsLive(row.value)
  }

  /** The row as a search by character sees it. */
  function Visible(row: Option<Row>): Option<Row> {
    if row.Some? && row.value.attached then row else None
  }

  /** The time of the newer of the two scores. */
  function ScoreAt(rd: Reader): Option<int> {
    var product := rd.product.GetOr(None);
    if rd.snapshot.Some? && product.Some? then Some(Max(rd.snapshot.value, product.value))
    else if rd.snapshot.Some? then rd.snapshot else product
  }

  function InputOf(c: Config, rd: Reader, e: Event): Input
    requires e.Conclude?
  {
    var latest := rd.latest.GetOr(None);
    Input(ScoreAt(rd).Some?, ScoreAt(rd), e.gradeIsU, c.ttlSeconds, c.backoffSeconds,
          if rd.active.Answer? then rd.active.status else None,
          if latest.Some? then Some(latest.value.status) else None,
          if latest.Some? then latest.value.finishedAt else None,
          if latest.Some? then latest.value.errorCode else None,
          e.contractReasons, e.ratingDelta, e.providerNewer, e.now)
  }

  /** The reader may take this step next. */
  predicate CanDo(rd: Reader, e: Event) {
    match e
    case ReadProduct(_, _) => rd.pc.Reading? && rd.product.None?
    case FindActive(_, _, _) => rd.pc.Reading? && rd.product.Some? && rd.active.Unasked?
    case FindLatest(_, _, _) => rd.pc.Reading? && rd.product.Some? && rd.latest.None?
    case GiveUp(_, _) => (rd.pc.Reading? && rd.active.Stale?) || rd.pc.Rechecking? || rd.pc.Resolving?
    case Conclude(_, _, _, _, _, _) => rd.pc.Reading? && rd.active.Answer? && rd.latest.Some?
    case Recheck(_, _, _) => rd.pc.Decided?
    case Resolve(_, _) => rd.pc.Looking?
    case Claim(_, _) => rd.pc.Claiming?
    case Drop(_, _) => !rd.pc.Done?
    case _ => false
  }

  /** The reader after its step. */
  function NextReader(c: Config, s: State, rd: Reader, e: Event): Reader
    requires CanDo(rd, e)
  {
    match e
    case ReadProduct(_, _) => rd.(product := Some(s.product))
    case FindActive(_, now, other) =>
      rd.(active :=
            if other.Some? then Answer(other.value)
            else if Live(Visible(s.row)) then
              if IsStale(s.row.value, now) then Stale(s.row.value) else Answer(Some(s.row.value.status))
            else Answer(None))
    case FindLatest(_, _, other) =>
      rd.(latest := Some(if other.Some? then other else Visible(s.row)), masked := other.Some?)
    case GiveUp(_, _) =>
      match rd.pc {
        case Rechecking(_) => rd.(pc := Looking)
        case Resolving(_) => rd.(pc := Claiming)
        case _ => rd.(active := Answer(None))
      }
    case Conclude(_, _, _, _, _, _) => rd.(pc := if Decide(InputOf(c, rd, e)).action == ENQUEUE then Decided else Done)
    case Recheck(_, now, foreign) =>
      rd.(pc := if foreign || !Live(Visible(s.row)) then Looking
                else if IsStale(s.row.value, now) then Rechecking(s.row.value)
                else Done)
    case Resolve(_, now) =>
      rd.(pc := if !Live(s.row) then Claiming
                else if IsStale(s.row.value, now) then Resolving(s.row.value)
                else Done)
    case Claim(_, _) => rd.(pc := Done)
    case Drop(_, _) => rd.(pc := Done)
  }

  /** The stale row that the reader is about to give up. */
  function SeenStale(rd: Reader): Row
    requires (rd.pc.Reading? && rd.active.Stale?) || rd.pc.Rechecking? || rd.pc.Resolving?
  {
    match rd.pc
    case Rechecking(seen) => seen
    case Resolving(seen) => seen
    case _ => rd.active.seen
  }

  /** The row after the step of a reader: giving up, leaving a placeholder, and claiming are all that write. */
  function RowAfter(row: Option<Row>, rd: Reader, e: Event): Option<Row>
    requires CanDo(rd, e)
  {
    match e
    case GiveUp(_, now) => if row.Some? then Some(GivenUp(SeenStale(rd), row.value, now)) else None
    case Resolve(_, now) => if row.None? then Some(Placeholder(now)) else row
    case Claim(_, now) => if Live(row) then row else Some(Requeued(now, true))
    case _ => row
  }

  predicate Enabled(s: State, e: Event) {
    && s.clock <= e.now
    && if e.ReadSnapshot? then e.reader !in s.readers
       else if IsReaders(e) then e.reader in s.readers && CanDo(s.readers[e.reader], e)
       else if e.Publish? then e.calculatedAt <= e.now
       else e.Rescore? || s.row.Some?
  }

  function Step(c: Config, s: State, e: Event): State
    requires Enabled(s, e)
  {
    var t := s.(clock := e.now);
    if e.ReadSnapshot? then
      t.(readers := s.readers[e.reader := Reader(Reading, s.snapshot, None, Unasked, None, false)])
    else if IsReaders(e) then
      var rd := s.readers[e.reader];
      t.(row := RowAfter(s.row, rd, e), readers := s.readers[e.reader := NextReader(c, s, rd, e)])
    else if e.Publish? then t.(snapshot := Some(e.calculatedAt))
    else if e.Rescore? then t.(product := e.calculated)
    else t.(row := Some(Written(s.row.value, e)))
  }

  /** What the others write about the row. */
  function Written(row: Row, e: Event): Row {
    match e
    case Start(now) => row.(status := ACTIVE, startedAt := Some(now))
    case Succeed(now) => row.(status := COMPLETED, finishedAt := Some(now), errorCode := None)
    case Cancel(now) => row.(status := CANCELLED, finishedAt := Some(now), errorCode := Some(CANCELLED_CODE))
    case Fail(now, errorCode, stamped) =>
      row.(status := FAILED, finishedAt := if stamped then Some(now) else None, errorCode := errorCode)
    case RequestCancel(_) => row.(cancelRequested := true)
    case Requeue(now, named) => Requeued(now, named)
    case Attach(_) => row.(attached := true)
    case _ => row
  }

  const INITIAL: State := State(None, None, None, 0, map[])

  ghost predicate Moves(c: Config, s: State, e: Event, t: State) {
    Enabled(s, e) && t == Step(c, s, e)
  }

  /** `states[i]` is the state before event `i`. */
  ghost predicate IsPath(c: Config, states: seq<State>, events: seq<Event>) {
    && |states| == |events| + 1
    && forall i :: 0 <= i < |events| ==> Moves(c, states[i], events[i], states[i + 1])
  }

  ghost predicate IsRun(c: Config, states: seq<State>, events: seq<Event>) {
    IsPath(c, states, events) && states[0] == INITIAL.(clock := states[0].clock)
  }

  // ---- what the theorems speak of ----

  /** The reader has begun to read and is not done. */
  predicate InFlight(s: State, reader: nat) {
    reader in s.readers && !s.readers[reader].pc.Done?
  }

  /** The reader's decision is to enqueue. */
  predicate DecidesEnqueue(c: Config, s: State, e: Event) {
    e.Conclude? && e.reader in s.readers && Decide(InputOf(c, s.readers[e.reader], e)).action == ENQUEUE
  }

  /** A claim that finds the row ended, and so begins a new execution: a job is created. */
  predicate Creates(s: State, e: Event) {
    e.Claim? && !Live(s.row)
  }

  predicate RatingRose(e: Event) {
    e.Conclude? && e.ratingDelta.Some? && e.ratingDelta.value >= DEFAULT_MYTHIC_RATING_STALE_DELTA
  }

  predicate TtlOver(c: Config, since: int, now: int) {
    now - since >= c.ttlSeconds * 1000
  }

  predicate BackoffOver(c: Config, since: int, now: int) {
    now - since >= c.backoffSeconds * 1000
  }

  /** The row tells of an ordinary failure, no earlier than `at`, and can be found by character. */
  predicate Failed(row: Option<Row>, at: int) {
    && row.Some? && row.value.status.FAILED? && IsOrdinary(row.value.errorCode) && row.value.attached
    && (row.value.finishedAt.Some? ==> at <= row.value.finishedAt.value)
  }

  /** An ended row is written about again, and not by a claim nor by an ordinary failure. */
  predicate Wipes(s: State, e: Event) {
    && !Live(s.row)
    && match e
       case Start(_) => true
       case Succeed(_) => true
       case Cancel(_) => true
       case Requeue(_, _) => true
       case Fail(_, errorCode, _) => !IsOrdinary(errorCode)
       case GiveUp(reader, _) =>
         reader in s.readers && CanDo(s.readers[reader], e)
         && !SeenStale(s.readers[reader]).status.QUEUED? && SeenStale(s.readers[reader]).cancelRequested
       case _ => false
  }
}
