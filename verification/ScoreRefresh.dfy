/** The score refresh policy (packages/config/src/score-refresh-decision.ts). */
module ScoreRefresh {
  import opened Wrappers

  const DEFAULT_SCORE_TTL_SECONDS: int := 604_800
  const DEFAULT_MYTHIC_RATING_STALE_DELTA: real := 50.0
  const DEFAULT_REFRESH_FAILURE_BACKOFF_SECONDS: int := 3_600

  const STALE_CONTRACT_FAILURE_CODES: set<string> :=
    {"REFRESH_CONTRACT_PREFLIGHT_MISMATCH", "REFRESH_CONTRACT_PREFLIGHT_MISSING_HASH"}

  const ELIGIBILITY_FAILURE_CODES: set<string> :=
    {"CHARACTER_BELOW_MAX_LEVEL", "CHARACTER_NO_CURRENT_SEASON_MYTHIC_SCORE", "CHARACTER_REFRESH_ELIGIBILITY_UNKNOWN"}

  datatype Action = NONE | ENQUEUE | RECALCULATE | REUSE_ACTIVE_JOB | BACKOFF

  datatype PublicState =
    | NO_SCORE_QUEUED | CALCULATING | FRESH | STALE_USABLE | REFRESHING | FAILED_FALLBACK | UNAVAILABLE | GRADE_U

  datatype Why =
    | WITHIN_SCORE_TTL | NO_PUBLISHED_SCORE | SCORE_TTL_EXPIRED | MYTHIC_RATING_INCREASED | ACTIVE_JOB_EXISTS
    | RECENT_FAILURE | NOT_REFRESH_ELIGIBLE | PROVIDER_NEWER_DIAGNOSTIC_ONLY | GRADE_U_ELIGIBILITY

  datatype Coarse = CoarseFresh | CoarseQueued | CoarseStale | CoarseRefreshing | CoarseFailed
  datatype Detailed = DetailedFresh | DetailedQueued | DetailedStale | DetailedInProgress | DetailedFailed

  datatype JobStatus = QUEUED | ACTIVE | COMPLETED | FAILED | CANCELLED

  datatype Decision = Decision(action: Action, publicState: PublicState, why: Why, profileRefreshStatus: Coarse,
                               detailedRefreshStatus: Detailed, warningCodes: seq<string>)

  /** A date that is absent or cannot be read is `None`; so is a rating delta that is not a finite number. */
  datatype Input = Input(
    hasPublishedScore: bool,
    scoreCalculatedAt: Option<int>,
    gradeIsU: bool,
    scoreTtlSeconds: int,
    failureBackoffSeconds: int,
    activeJobStatus: Option<JobStatus>,
    latestJobStatus: Option<JobStatus>,
    latestJobFinishedAt: Option<int>,
    latestJobErrorCode: Option<string>,
    contractReasons: seq<string>,
    mythicRatingDelta: Option<real>,
    providerNewerThanScore: bool,
    nowMs: int)

  predicate IsStaleContractFailureCode(code: Option<string>) {
    code.Some? && code.value in STALE_CONTRACT_FAILURE_CODES
  }

  predicate IsEligibilityFailureCode(code: Option<string>) {
    code.Some? && code.value in ELIGIBILITY_FAILURE_CODES
  }

  predicate IsScoreWithinTtl(scoreCalculatedAt: Option<int>, ttlSeconds: int, nowMs: int) {
    scoreCalculatedAt.Some? && nowMs - scoreCalculatedAt.value < ttlSeconds * 1000
  }

  predicate IsWithinFailureBackoff(status: Option<JobStatus>, finishedAt: Option<int>, backoffSeconds: int, nowMs: int,
                                   errorCode: Option<string>) {
    && status == Some(FAILED)
    && !IsStaleContractFailureCode(errorCode)
    && !IsEligibilityFailureCode(errorCode)
    && (finishedAt.None? || nowMs - finishedAt.value < backoffSeconds * 1000)
  }

  predicate RatingStale(i: Input) {
    i.mythicRatingDelta.Some? && i.mythicRatingDelta.value >= DEFAULT_MYTHIC_RATING_STALE_DELTA
  }

  predicate EligibilityFailure(i: Input) {
    i.latestJobStatus == Some(FAILED) && IsEligibilityFailureCode(i.latestJobErrorCode)
  }

  predicate InBackoff(i: Input) {
    IsWithinFailureBackoff(i.latestJobStatus, i.latestJobFinishedAt, i.failureBackoffSeconds, i.nowMs,
                           i.latestJobErrorCode)
  }

  function WithProviderDiagnostic(d: Decision, providerNewer: bool): Decision {
    if !providerNewer || "SCORE_STALE_VS_PROVIDERS" in d.warningCodes then d
    else d.(why := if d.action.NONE? && d.publicState.FRESH? then PROVIDER_NEWER_DIAGNOSTIC_ONLY else d.why,
            warningCodes := d.warningCodes + ["SCORE_STALE_VS_PROVIDERS"])
  }

  function ExistingScoreDiagnostics(i: Input): seq<string> {
    if EligibilityFailure(i) && i.latestJobErrorCode.value != "" then [i.latestJobErrorCode.value] else []
  }

  /** `decideScoreRefresh`. */
  function Decide(i: Input): Decision {
    var progress := if i.activeJobStatus == Some(ACTIVE) then DetailedInProgress else DetailedQueued;
    if i.activeJobStatus.Some? then
      if i.hasPublishedScore then
        WithProviderDiagnostic(Decision(REUSE_ACTIVE_JOB, REFRESHING, ACTIVE_JOB_EXISTS, CoarseRefreshing, progress,
                                        []),
                               i.providerNewerThanScore)
      else
        Decision(REUSE_ACTIVE_JOB, if i.activeJobStatus == Some(ACTIVE) then CALCULATING else NO_SCORE_QUEUED,
                 ACTIVE_JOB_EXISTS, CoarseQueued, progress, [])
    else if !i.hasPublishedScore then
      if EligibilityFailure(i) then
        Decision(NONE, UNAVAILABLE, NOT_REFRESH_ELIGIBLE, CoarseFailed, DetailedFailed,
                 [i.latestJobErrorCode.GetOr("NOT_REFRESH_ELIGIBLE")])
      else if InBackoff(i) then
        Decision(BACKOFF, UNAVAILABLE, RECENT_FAILURE, CoarseFailed, DetailedFailed, ["REFRESH_FAILED"])
      else
        Decision(ENQUEUE, NO_SCORE_QUEUED, NO_PUBLISHED_SCORE, CoarseQueued, DetailedQueued, [])
    else if IsScoreWithinTtl(i.scoreCalculatedAt, i.scoreTtlSeconds, i.nowMs) && !RatingStale(i) then
      WithProviderDiagnostic(
        if i.gradeIsU then
          Decision(NONE, GRADE_U, GRADE_U_ELIGIBILITY, CoarseFresh, DetailedFresh, ExistingScoreDiagnostics(i))
        else
          Decision(NONE, FRESH, WITHIN_SCORE_TTL, CoarseFresh, DetailedFresh, ExistingScoreDiagnostics(i)),
        i.providerNewerThanScore)
    else if InBackoff(i) then
      WithProviderDiagnostic(
        Decision(BACKOFF, FAILED_FALLBACK, RECENT_FAILURE, CoarseStale, DetailedFailed, ["REFRESH_FAILED"]),
        i.providerNewerThanScore)
    else
      WithProviderDiagnostic(
        Decision(ENQUEUE, STALE_USABLE, if RatingStale(i) then MYTHIC_RATING_INCREASED else SCORE_TTL_EXPIRED,
                 CoarseStale, DetailedStale, []),
        i.providerNewerThanScore)
  }

  // ---- what one decision promises ----

  /** Two inputs that may differ in the contract reasons, the grade and the provider times. */
  predicate SameFacts(i: Input, j: Input) {
    j == i.(contractReasons := j.contractReasons, gradeIsU := j.gradeIsU,
            providerNewerThanScore := j.providerNewerThanScore)
  }

  /**
    Contract diagnostics never change a decision; grade U and newer provider data change what is reported but never
    the action. Nothing recalculates.
   */
  lemma DiagnosticsNeverAct(i: Input, j: Input)
    requires SameFacts(i, j)
    ensures Decide(j).action == Decide(i).action != RECALCULATE
    ensures i.gradeIsU == j.gradeIsU && i.providerNewerThanScore == j.providerNewerThanScore ==> Decide(i) == Decide(j)
  {
    hide IsWithinFailureBackoff, IsScoreWithinTtl;
  }

  /**
    What the statuses tell: queued appears only with a live or just enqueued job, a published score stays visible in
    every state, and without one there is nothing fresh or stale.
   */
  lemma StatusesAreHonest(i: Input)
    ensures Decide(i).profileRefreshStatus.CoarseQueued? ==> i.activeJobStatus.Some? || Decide(i).action == ENQUEUE
    ensures i.hasPublishedScore
      <==> Decide(i).publicState in {FRESH, STALE_USABLE, REFRESHING, FAILED_FALLBACK, GRADE_U}
    ensures Decide(i).detailedRefreshStatus.DetailedInProgress? <==> i.activeJobStatus == Some(ACTIVE)
    ensures Decide(i).action == REUSE_ACTIVE_JOB <==> i.activeJobStatus.Some?
    ensures Decide(i).action == BACKOFF ==> InBackoff(i) && "REFRESH_FAILED" in Decide(i).warningCodes
  {
    hide IsWithinFailureBackoff, IsScoreWithinTtl;
  }

  /** The facts a decision turns on: a score within its lifetime, a rating risen by the threshold, the last failure. */
  predicate Young(i: Input) {
    i.scoreCalculatedAt.Some? && i.nowMs - i.scoreCalculatedAt.value < 1000 * i.scoreTtlSeconds
  }

  predicate Rose(i: Input) {
    i.mythicRatingDelta.Some? && i.mythicRatingDelta.value >= 50.0
  }

  predicate Ineligible(i: Input) {
    i.latestJobStatus == Some(FAILED) && i.latestJobErrorCode.Some? &&
        i.latestJobErrorCode.value in ELIGIBILITY_FAILURE_CODES
  }

  predicate CoolingDown(i: Input) {
    && i.latestJobStatus == Some(FAILED)
    && (i.latestJobErrorCode.Some? ==>
          i.latestJobErrorCode.value !in STALE_CONTRACT_FAILURE_CODES + ELIGIBILITY_FAILURE_CODES)
    && (i.latestJobFinishedAt.Some? ==> i.nowMs - i.latestJobFinishedAt.value < 1000 * i.failureBackoffSeconds)
  }

  /** Every action and every published state, exactly. */
  lemma DecisionExactly(i: Input)
    ensures var d := Decide(i);
      var idle, scored, alive := i.activeJobStatus.None?, i.hasPublishedScore, Young(i) && !Rose(i);
      && (d.action == REUSE_ACTIVE_JOB <==> !idle)
      && (d.action == ENQUEUE <==> idle && !CoolingDown(i) && if scored then !alive else !Ineligible(i))
      && (d.action == BACKOFF <==> idle && CoolingDown(i) && (scored ==> !alive))
      && (d.action == NONE <==> idle && if scored then alive else Ineligible(i))
      && (d.publicState == REFRESHING <==> !idle && scored)
      && (d.publicState == CALCULATING <==> i.activeJobStatus == Some(ACTIVE) && !scored)
      && (d.publicState == NO_SCORE_QUEUED <==>
            !scored && (d.action == ENQUEUE || (!idle && i.activeJobStatus != Some(ACTIVE))))
      && (d.publicState == UNAVAILABLE <==> idle && !scored && (Ineligible(i) || CoolingDown(i)))
      && (d.publicState == FRESH <==> idle && scored && alive && !i.gradeIsU)
      && (d.publicState == GRADE_U <==> idle && scored && alive && i.gradeIsU)
      && (d.publicState == FAILED_FALLBACK <==> idle && scored && !alive && CoolingDown(i))
      && (d.publicState == STALE_USABLE <==> idle && scored && !alive && !CoolingDown(i))
  {
  }

  /** Every reason and every status, exactly. */
  lemma ReasonExactly(i: Input)
    ensures var d, newer := Decide(i), i.providerNewerThanScore;
      && (d.why == ACTIVE_JOB_EXISTS <==> d.action == REUSE_ACTIVE_JOB)
      && (d.why == RECENT_FAILURE <==> d.action == BACKOFF)
      && (d.why == NO_PUBLISHED_SCORE <==> d.action == ENQUEUE && !i.hasPublishedScore)
      && (d.why == MYTHIC_RATING_INCREASED <==> d.action == ENQUEUE && i.hasPublishedScore && Rose(i))
      && (d.why == SCORE_TTL_EXPIRED <==> d.action == ENQUEUE && i.hasPublishedScore && !Rose(i))
      && (d.why == NOT_REFRESH_ELIGIBLE <==> d.action == NONE && !i.hasPublishedScore)
      && (d.why == GRADE_U_ELIGIBILITY <==> d.publicState == GRADE_U)
      && (d.why == PROVIDER_NEWER_DIAGNOSTIC_ONLY <==> d.publicState == FRESH && newer)
      && (d.why == WITHIN_SCORE_TTL <==> d.publicState == FRESH && !newer)
    ensures var d := Decide(i);
      && (d.profileRefreshStatus == CoarseFresh <==> d.publicState in {FRESH, GRADE_U})
      && (d.profileRefreshStatus == CoarseRefreshing <==> d.publicState == REFRESHING)
      && (d.profileRefreshStatus == CoarseStale <==> d.publicState in {STALE_USABLE, FAILED_FALLBACK})
      && (d.profileRefreshStatus == CoarseFailed <==> d.publicState == UNAVAILABLE)
      && (d.detailedRefreshStatus == DetailedFresh <==> d.profileRefreshStatus == CoarseFresh)
      && (d.detailedRefreshStatus == DetailedStale <==> d.publicState == STALE_USABLE)
      && (d.detailedRefreshStatus == DetailedFailed <==> d.publicState in {UNAVAILABLE, FAILED_FALLBACK})
      && (d.detailedRefreshStatus == DetailedInProgress <==> i.activeJobStatus == Some(ACTIVE))
  {
    EligibilityCodes();
    hide InBackoff, IsScoreWithinTtl;
  }

  /** Every warning, exactly: a failed refresh, a newer provider, or the eligibility code that stands in the way. */
  lemma WarningsExactly(i: Input, code: string)
    ensures var d := Decide(i);
      code in d.warningCodes <==>
        || (code == "REFRESH_FAILED" && d.action == BACKOFF)
        || (code == "SCORE_STALE_VS_PROVIDERS" && i.hasPublishedScore && i.providerNewerThanScore)
        || (d.action == NONE && Ineligible(i) && code == i.latestJobErrorCode.value)
  {
    EligibilityCodes();
    hide InBackoff, IsScoreWithinTtl, RatingStale;
  }

  lemma EligibilityCodes()
    ensures "" !in ELIGIBILITY_FAILURE_CODES && "SCORE_STALE_VS_PROVIDERS" !in ELIGIBILITY_FAILURE_CODES
  {
    assert "SCORE_STALE_VS_PROVIDERS"[0] == 'S' && "CHARACTER_BELOW_MAX_LEVEL"[0] == 'C'
        && "CHARACTER_NO_CURRENT_SEASON_MYTHIC_SCORE"[0] == 'C' && "CHARACTER_REFRESH_ELIGIBILITY_UNKNOWN"[0] == 'C';
  }

  /** A score within its lifetime whose rating did not rise is never refreshed, whatever happened to the last job. */
  lemma FreshIsLeftAlone(i: Input)
    requires i.hasPublishedScore && i.activeJobStatus.None?
    ensures Decide(i).action == NONE <==>
      IsScoreWithinTtl(i.scoreCalculatedAt, i.scoreTtlSeconds, i.nowMs) && !RatingStale(i)
  {
  }

  /** With the facts fixed, a decision to enqueue is never taken back as time passes. */
  lemma EnqueuePersists(i: Input, later: int)
    requires Decide(i).action == ENQUEUE && i.nowMs <= later
    ensures Decide(i.(nowMs := later)).action == ENQUEUE
    ensures Decide(i.(nowMs := later)).why == Decide(i).why
  {
  }

  /** Nothing to wait for: no live job, no failure whose end is unknown, and a score or no eligibility failure. */
  predicate Refreshable(i: Input) {
    && i.activeJobStatus.None?
    && (i.hasPublishedScore || !EligibilityFailure(i))
    && !(i.latestJobStatus == Some(FAILED) && i.latestJobFinishedAt.None?
         && !IsStaleContractFailureCode(i.latestJobErrorCode) && !IsEligibilityFailureCode(i.latestJobErrorCode))
  }

  function Max(a: int, b: int): int {
    if a < b then b else a
  }

  /** A time by which every lifetime and backoff of the input has run out. */
  function Expiry(i: Input): int {
    Max(if i.scoreCalculatedAt.Some? then i.scoreCalculatedAt.value + i.scoreTtlSeconds * 1000 else i.nowMs,
        if i.latestJobFinishedAt.Some? then i.latestJobFinishedAt.value + i.failureBackoffSeconds * 1000 else i.nowMs)
  }

  lemma EnqueuedAfterExpiry(i: Input, later: int)
    requires later >= Expiry(i)
    ensures Decide(i.(nowMs := later)).action == ENQUEUE <==> Refreshable(i)
  {
    hide IsStaleContractFailureCode, IsEligibilityFailureCode, RatingStale;
  }

  /**
    With the facts fixed, waiting leads to an enqueue exactly when nothing blocks it for good: a live job, an
    eligibility failure with no score yet, or an ordinary failure whose finish time is missing or unreadable.
   */
  lemma EventuallyEnqueuesExactly(i: Input)
    ensures (exists later :: later >= i.nowMs && Decide(i.(nowMs := later)).action == ENQUEUE) <==> Refreshable(i)
  {
    hide Decide, Refreshable, Expiry;
    if later :| later >= i.nowMs && Decide(i.(nowMs := later)).action == ENQUEUE {
      var limit := Max(later, Expiry(i));
      EnqueuePersists(i.(nowMs := later), limit);
      assert i.(nowMs := later).(nowMs := limit) == i.(nowMs := limit);
      EnqueuedAfterExpiry(i, limit);
    }
    if Refreshable(i) {
      var limit := Max(i.nowMs, Expiry(i));
      EnqueuedAfterExpiry(i, limit);
      assert limit >= i.nowMs && Decide(i.(nowMs := limit)).action == ENQUEUE;
    }
  }
}
