/** Job rows and how they age (apps/worker/src/persistence/job-repository.ts and job-staleness.ts). */
module JobRows {
  import opened Wrappers
  import opened ScoreRefresh

  /** `attached` says that the row names the character, which the searches by character go by. */
  datatype Row = Row(status: JobStatus, scheduledAt: int, startedAt: Option<int>, finishedAt: Option<int>,
                     errorCode: Option<string>, cancelRequested: bool, attached: bool)

  const STALE_QUEUED_MS: int := 900_000
  const STALE_ACTIVE_MS: int := 1_800_000

  const PENDING_ENQUEUE: string := "PENDING_ENQUEUE"
  const STALE_QUEUED: string := "STALE_QUEUED"
  const STALE_ACTIVE: string := "STALE_ACTIVE"
  const ENQUEUE_FAILED: string := "ENQUEUE_FAILED"
  const CANCELLED_CODE: string := "CANCELLED"
  const SUPERSEDED: string := "REFRESH_SUPERSEDED_DEDUPED"

  predicate IsLive(r: Row) {
    r.status.QUEUED? || r.status.ACTIVE?
  }

  predicate IsStaleQueued(r: Row, now: int) {
    r.status.QUEUED? && r.startedAt.None? && now - r.scheduledAt > STALE_QUEUED_MS
  }

  predicate IsStaleActive(r: Row, now: int) {
    r.status.ACTIVE? && now - r.startedAt.GetOr(r.scheduledAt) > STALE_ACTIVE_MS
  }

  predicate IsStale(r: Row, now: int) {
    IsStaleQueued(r, now) || IsStaleActive(r, now)
  }

  /** What becomes of a row that was seen stale. The update asks nothing about the row's state by then. */
  function GivenUp(seen: Row, row: Row, now: int): Row {
    if seen.status.QUEUED? then row.(status := FAILED, finishedAt := Some(now), errorCode := Some(STALE_QUEUED))
    else if seen.cancelRequested then
      row.(status := CANCELLED, finishedAt := Some(now), errorCode := Some(CANCELLED_CODE))
    else row.(status := FAILED, finishedAt := Some(now), errorCode := Some(STALE_ACTIVE))
  }

  /** `queuedResetData`. */
  function Requeued(now: int, attached: bool): Row {
    Row(QUEUED, now, None, None, None, false, attached)
  }

  /** The row of an enqueue that has not been claimed yet. */
  function Placeholder(now: int): Row {
    Row(FAILED, now, None, Some(now), Some(PENDING_ENQUEUE), false, true)
  }

  /** A failure that is neither of the refresh contract nor of eligibility. */
  predicate IsOrdinary(code: Option<string>) {
    !IsStaleContractFailureCode(code) && !IsEligibilityFailureCode(code)
  }

  lemma OwnCodesAreOrdinary()
    ensures IsOrdinary(None) && IsOrdinary(Some(PENDING_ENQUEUE)) && IsOrdinary(Some(STALE_QUEUED))
    ensures IsOrdinary(Some(STALE_ACTIVE)) && IsOrdinary(Some(ENQUEUE_FAILED))
  {
    assert PENDING_ENQUEUE[0] == 'P' && STALE_QUEUED[0] == 'S' && STALE_ACTIVE[0] == 'S' && ENQUEUE_FAILED[0] == 'E';
    assert "REFRESH_CONTRACT_PREFLIGHT_MISMATCH"[0] == 'R' && "REFRESH_CONTRACT_PREFLIGHT_MISSING_HASH"[0] == 'R'
        && "CHARACTER_BELOW_MAX_LEVEL"[0] == 'C' && "CHARACTER_NO_CURRENT_SEASON_MYTHIC_SCORE"[0] == 'C'
        && "CHARACTER_REFRESH_ELIGIBILITY_UNKNOWN"[0] == 'C';
  }
}
