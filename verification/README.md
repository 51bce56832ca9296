# Verified model of the scoring service's core

This project models, in Dafny 4.11, the parts of the scoring service whose correctness is more than a reading of one
function: the content-addressed artifact store, the hashing layer, the persisted performance aggregates, the ability
catalog, and the refresh policy with its contract, sanitizer, evidence keys and negative cache. `dafny verify
dfyconfig.toml` checks everything.

## What is modelled

**Hashing.** `Word32` gives 32-bit words with bitwise operations defined on bits, and the JavaScript number operators
(`>>>`, `|`, `~`, `+` below 2^53) on top of them. `Fips180` is the functional SHA-256 of FIPS 180-4, and
`FipsConstants` derives its constants from the first primes. `Sha256` is
`sha256Bytes` as it runs, arrays filled in place and eight rolling variables, proved to compute it. `Hex` is `toHex`.
`JsonText` and `CanonicalJson` hold `stableStringify` on UTF-16 code units and a reader of RFC 8259 text that inverts it.

**Artifact store.** `PathSafety` is the URI and path layer. `ArtifactProtocol` is the store as a state machine: one
program counter for every `await`, any number of writers, readers, deleters and probes, failures of every filesystem
call, and crashes anywhere. `ArtifactSafety` proves what every run keeps. `LocalFsStore` is the class itself over a
mutable directory, each method tied step by step to the protocol. Assumed: `rename` is atomic, the decoder inverts what
the compressor returned, and the random part of a temporary name differs from those that live writers of the same
content hold.

**Aggregates.** `Sorting` is the stable sort. `DungeonRows` holds the row validator, the comparator, the key and
`dedupeDungeonAggregates` as a loop. `PerformanceAggregate` is the V2 validator and both directions of the column
layout, on JavaScript values of unknown type, and `AggregateReading` says field by field what the validator accepts and
makes of it. `localeCompare` is any total preorder, possibly with ties.

**Ability catalog.** `Catalog` is the data. `CatalogValidation` runs the validator with its maps and the replacement
walk. `CatalogRegistry` is spell resolution and catalog resolution with the mutual delegation between registry and
contexts. `Applicability` judges categories from observed, talent and race evidence. `Choices` is `filter`, told by the
places of what is kept.

**Refresh and public output.** `ScoreRefresh` is the decision and `JobRows` the job row, its staleness and recovery.
`RefreshProtocol` is a profile read as a state machine, one step for every await: published score, product score, live
job (with the recovery of a stale row that this search does itself), latest job, decision, second search, lookup, claim;
any number of readers interleave with workers, other jobs of the character, and administrators. `RefreshRuns` proves what
all its runs keep from any state, and `RefreshRaces` that every exception in those theorems is needed. `JobClaims` is the
enqueue itself, statement by statement, over rows keyed by dedupe key: any number of enqueuers and workers, the
conditional update that claims a row, stale recovery, lost replies of the queue, and other code writing any row at any
time; `JobOverlaps` and `JobRaces` say exactly when two executions of one job are open at once. `ContractMaterial` is the
text a refresh contract is hashed from, and `RefreshContract` its parser and comparison. `Sanitizer`,
`PublicExplanation`, `CapabilityEvidence` and `NegativeCaching` follow their source files; `Delimited` is `join` and its
inverse, and `JsHost` says what is assumed of `localeCompare` and of the text of a double.

## Findings

- The padding of `sha256Bytes` agrees with the standard exactly for messages under 2^29 bytes; from 2^32 - 72 bytes on
  the buffer is too small and the call raises a range error.
- `stableStringify` is uniquely readable exactly for values without `undefined` at the root or inside an array; `[undefined]`
  prints like `[]`.
- A `cas://` URI without an extension is accepted but names a path that `write` never creates: reading one always raises
  NOT_FOUND in a store that began without such files. The URIs that do name what a write stored are stated exactly.
- If three live writers of one content could draw the same temporary name, a run from an empty directory would publish an
  empty file.
- Rows of different places share a key exactly when one slug starts with the other slug, `::` and its encounter, and the
  rest of the two keys agree; so never for slugs without `::`. A specialization `null` shares a key with a missing one.
- A release context that mirrors the registry differs from it for every accepted historical game version.
- The validator does not look at activation, buff and effect ids: two rules of a valid catalog can share one and disagree.
  The rules of an answer agree on category and class exactly when all admitted rules that list the id anywhere do.
- Learning the race can reopen a category that its class rules had closed; learning talents cannot.
- Neither the lifetime of a score nor the failure backoff bounds when profile reads create jobs. A read awaits the scores, the
  jobs and the enqueue one after the other. A reader that was anywhere in between when a score was published can
  create a job right after it: one that had decided, and also one that had read only the old score. Otherwise a job within
  the lifetime needs a risen rating, or an older score published over the newer one.
- A single reader breaks the backoff: `findActiveForCharacter` gives up a stale row and answers that there is no job,
  while `findLatestForCharacter`, sent at the same time, still reports the row as queued. The reader enqueues right after
  the failure it wrote itself.
- Besides readers that were in flight at the failure, the backoff is broken by a newer job of another key (a score
  recalculation, say), which hides the failed one; by a write about the execution that has ended, as when a worker given
  up as stale may no longer publish but marks the row completed all the same; and by a redelivered message, whose row
  names no character until the worker attaches it, so that an early failure is not seen. No run of the model has another
  way.
- A placeholder row whose enqueuer never claims it reads as a failure, and backs readers off although nothing was tried,
  whether or not there is a published score.
- Two executions of one job are open at once in a run only after a row was given up as stale, or ended by other code, while
  an execution was open, or after the queue took a message whose `add` failed. From any state with an execution open under
  an ended row one more enqueuer is enough; from any other state nothing but those three steps leads there. Recovery of a
  stale queued row does it while its message still waits, and then two workers run one job.
- An ordinary failure without a readable finish time blocks automatic refresh for good.
- A NaN zone or partition is compatible by hash but reported as changed.
- Contract materials tell contracts apart as long as no text field holds what reads as its own end, `|` and the next
  field's name; any contract with such a field shares its material with another one.
- Report codes are redacted as values and under report-code keys, but an object key that is itself a report code is kept:
  stripped output holds a code exactly when the walk reaches such a key.
- `hashCapabilitySet` distinguishes repetitions: it identifies multisets of names, not sets.
- Evidence keys tell identities apart unless a text holds what reads as its own end; from the actors on, such a text does
  share its key with another identity, one under a different ability filter among them.
- The negative cache answers what the history of calls says unless the history still remembers the key and a lookup has
  evicted it, which happens only when the clock goes back.

## Model

| member | source | states |
|---|---|---|
| Word32.CombineBit | packages/contracts/src/sha256.ts:64-68 | a bitwise operation on words acts on every bit separately |
| Fips180.RotateMovesBits | packages/contracts/src/sha256.ts:19-21 | ROTR of the standard moves bit i + n (mod 32) to bit i, for every word, shift and bit |
| Fips180.SigmaBits | packages/contracts/src/sha256.ts:48-69 | bit for bit, each of the four sigma functions is the parity of three copies of the word, moved by the stated places |
| Fips180.ChoiceAndMajority | packages/contracts/src/sha256.ts:65-68 | bit for bit, Ch chooses by its first word and Maj is the majority of three |
| FipsConstants.FirstPrimes | packages/contracts/src/sha256.ts:6-17 | the listed numbers ascend and are exactly the primes up to the last of them |
| FipsConstants.RoundConstantsAreCubeRoots | packages/contracts/src/sha256.ts:6-17 | every round constant holds the first 32 bits of the fractional part of the cube root of its prime, in order |
| FipsConstants.InitialValueIsSquareRoots | packages/contracts/src/sha256.ts:33-40 | the eight initial words hold those of the square roots of the first eight primes |
| Sha256.RotrPattern | packages/contracts/src/sha256.ts:19-21 | the code's rotation has, as a 32-bit pattern, the value of ROTR |
| Sha256.PaddedLengthIsLeast | packages/contracts/src/sha256.ts:25-28 | the allocated length is the least multiple of 64 with room for message, marker and length, exactly while length + 72 is below 2^32 |
| Sha256.PaddingAgreesExactlyUnder2Pow29 | packages/contracts/src/sha256.ts:24-31 | the padded buffer with its zero high length word is the padding of section 5.1.1 exactly for messages under 2^29 bytes |
| Sha256.ScheduleWordPattern | packages/contracts/src/sha256.ts:48-52 | the signed and unsigned mix of the schedule sum, reduced once, is addition modulo 2^32 of the standard's functions |
| Sha256.Temp1Pattern | packages/contracts/src/sha256.ts:64-66 | the un-reduced five-term sum stays exact in a double and reduces to the standard's T1 |
| Sha256.Temp2Pattern | packages/contracts/src/sha256.ts:67-69 | the same for T2 |
| Sha256.ChPattern | packages/contracts/src/sha256.ts:65 | the signed choice expression has the bit pattern of Ch |
| Sha256.MajPattern | packages/contracts/src/sha256.ts:68 | the signed majority expression has the bit pattern of Maj |
| Sha256.PadMessage | packages/contracts/src/sha256.ts:26-31 | the array filled in place is the padding the code means, for every message that fits |
| Sha256.FillSchedule | packages/contracts/src/sha256.ts:45-52 | the array filled in place is the message schedule of section 6.2.2 |
| Sha256.Mix | packages/contracts/src/sha256.ts:54-79 | sixty-four rounds on eight rolling variables are the rounds of section 6.2.2 |
| Sha256.Compress | packages/contracts/src/sha256.ts:54-88 | one iteration of the outer loop is the standard's compression of a block |
| Sha256.HashAll | packages/contracts/src/sha256.ts:33-89 | the loop over offsets chains all blocks from the initial value |
| Sha256.WriteDigest | packages/contracts/src/sha256.ts:91-101 | the output bytes are the big-endian serialization of the eight words |
| Sha256.Sha256Bytes | packages/contracts/src/sha256.ts:23-102 | the result is SHA-256 of FIPS 180-4 for every message under 2^29 bytes, and a range error exactly from 2^32 - 72 bytes on |
| Hex.ToHex | packages/contracts/src/sha256.ts:104-110 | the loop prints the two lower-case digits of every byte |
| Hex.DigitsAscend | packages/contracts/src/sha256.ts:104-110 | the sixteen lower-case digits stand for their values in ascending order |
| Hex.TextInverts | packages/contracts/src/sha256.ts:104-110 | the printed digest reads back to the bytes |
| PathSafety.DigestTextIsName | packages/contracts/src/sha256.ts:113-116 | the text of a digest is a name the store accepts |
| PathSafety.ParseAcceptsExactly | packages/artifact-store/src/path-safety.ts:34-44 | every trimmed text of the URI shape is accepted and split into the lower-case hash and the extension |
| PathSafety.ParseAcceptsOnly | packages/artifact-store/src/path-safety.ts:34-44 | nothing else is accepted |
| PathSafety.UriRoundTrip | packages/artifact-store/src/local-fs-store.ts:45-48 | a URI the store hands out parses to its hash and codec |
| PathSafety.StoredNames | packages/artifact-store/src/path-safety.ts:46-57 | the URI and the file of a stored artifact: prefix, hash, and the ending of its codec, under the first two digits |
| PathSafety.EndingsExactly | packages/artifact-store/src/path-safety.ts:60-73 | which ending reads with which codec, and that no other is known |
| PathSafety.UriCanonical | packages/artifact-store/src/path-safety.ts:34-73 | rebuilding a parsed URI gives the trimmed text back exactly for lower-case URIs with an extension |
| PathSafety.LocationsAreDistinct | packages/artifact-store/src/path-safety.ts:9-31 | files of different hash or extension never share a location |
| ArtifactSafety.InvariantKept | packages/artifact-store/src/local-fs-store.ts:67-203 | every step of every call, every failure and every crash keeps the invariant |
| ArtifactSafety.EveryTargetMatchesItsName | packages/artifact-store/src/local-fs-store.ts:67-203 | in every state of every run each target decodes to bytes whose digest is its name, and no read of a present file fails to decode or to match |
| ArtifactSafety.ReturnedUriStaysReadable | packages/artifact-store/src/local-fs-store.ts:85-154 | a write that returned, fresh or deduplicated, leaves its URI readable in every later state up to which no delete steps |
| ArtifactSafety.DigestsAreHex | packages/artifact-store/src/local-fs-store.ts:76-83 | with a 32-byte digest, as SHA-256 has, every name the store makes has the shape its URIs and paths ask for |
| ArtifactSafety.ReadOfReadable | packages/artifact-store/src/local-fs-store.ts:156-191 | a read of such a URI whose file call succeeds returns bytes with that digest, whatever happens after the file was read |
| ArtifactSafety.ReadBackIsTheContent | packages/artifact-store/src/local-fs-store.ts:156-191 | where the digest does not collide with the content, reading back gives the written content |
| ArtifactSafety.EveryTemporaryHasOneWriter | packages/artifact-store/src/local-fs-store.ts:108-154 | without crashes and with working unlinks every temporary file belongs to exactly one call in flight |
| ArtifactSafety.FinishedWriterLeavesNoTemporary | packages/artifact-store/src/local-fs-store.ts:113-154 | and is gone when that call returns or throws |
| ArtifactSafety.SharedTemporaryNameCorruptsTarget | packages/artifact-store/src/local-fs-store.ts:108-144 | if names could repeat among live writers, a run of three writers from an empty directory publishes a file that does not match its name |
| ArtifactSafety.BareUriAlwaysNotFound | packages/artifact-store/src/local-fs-store.ts:156-172 | in every run of a store that began without extensionless files, a read of a URI without an extension raises NOT_FOUND or the caller's own hash mismatch |
| ArtifactSafety.UrisOfWriteExactly | packages/artifact-store/src/path-safety.ts:34-44 | the URIs that name what a write stored are exactly the hash in either case with the extension of the codec |
| LocalFsStore.LocalFsArtifactStore.FillTemporary | packages/artifact-store/src/local-fs-store.ts:115-121 | exclusive create, fill, sync and close: success exactly when every call succeeds and the name was free, then the file is complete; nothing else changes |
| LocalFsStore.LocalFsArtifactStore.RecoverLostRename | packages/artifact-store/src/local-fs-store.ts:124-140 | a lost rename succeeds by deduplication exactly when both stats see the target |
| LocalFsStore.LocalFsArtifactStore.Publish | packages/artifact-store/src/local-fs-store.ts:113-144 | succeeds exactly when the file is complete and the rename succeeds or finds the target; the new directory is stated in full |
| LocalFsStore.LocalFsArtifactStore.Write | packages/artifact-store/src/local-fs-store.ts:67-154 | exactly when it succeeds, when it deduplicates and what the target then holds; its steps are protocol steps, good targets stay good, other files stay, and the temporary file is gone if unlink works |
| LocalFsStore.LocalFsArtifactStore.Read | packages/artifact-store/src/local-fs-store.ts:156-191 | exactly which error is raised when, and that the result is the decoded stored file with the digest asked for |
| LocalFsStore.LocalFsArtifactStore.Delete | packages/artifact-store/src/local-fs-store.ts:193-202 | removes exactly the named target, and says whether it did |
| LocalFsStore.LocalFsArtifactStore.Exists | packages/artifact-store/src/local-fs-store.ts:50-65 | true exactly when some codec's target is there and its stat succeeds |
| LocalFsStore.WriteLeavesReadable | packages/artifact-store/src/local-fs-store.ts:67-154 | any run of write steps that ends in success leaves its URI readable |
| JsonText.ReadQuoted | packages/contracts/src/canonical-json.ts:10-12 | a quoted string, escapes and lone surrogates included, reads back to the same code units |
| JsonText.QuotedUnits | packages/contracts/src/canonical-json.ts:10-12 | unit by unit: exactly quotes, backslashes, controls and lone surrogates are escaped, each in its one form |
| JsonText.ReadNumeral | packages/contracts/src/canonical-json.ts:10-12 | a printed number reads back whole before any following text |
| CanonicalJson.ParseInvertsPrint | packages/contracts/src/canonical-json.ts:9-21 | an RFC 8259 reader recovers from the printed text the value up to key order and undefined properties |
| CanonicalJson.ObjectPrintsAscending | packages/contracts/src/canonical-json.ts:16-21 | an object prints its defined properties between braces, joined by commas, with keys strictly ascending by code unit |
| CanonicalJson.ArrayPrintsItems | packages/contracts/src/canonical-json.ts:13-15 | an array prints its items in order between brackets, joined by commas, undefined as nothing |
| CanonicalJson.PrintsEqualExactlyWhenSameMeaning | packages/contracts/src/canonical-json.ts:9-21 | two values print equally exactly when they mean the same |
| CanonicalJson.UniquelyReadableExactlyWhenPrintable | packages/contracts/src/canonical-json.ts:9-21 | the text reads back to the value exactly when nothing is undefined at the root or inside an array |
| CanonicalJson.UndefinedInArraysCollides | packages/contracts/src/canonical-json.ts:13-15 | with undefined in an array different values share a text, and another text is not JSON |
| Sorting.SortStable | packages/contracts/src/character-performance-aggregate-v1.ts:192-198 | sorting keeps the order of tied elements |
| Sorting.StableSortUnique | packages/contracts/src/character-performance-aggregate-v1.ts:192-198 | no other stable sort exists: sorted lists with the same ties are equal |
| DungeonRows.NormalizeRoundTrip | packages/contracts/src/character-performance-aggregate-v1.ts:107-183 | a row the validator produced is accepted again unchanged |
| DungeonRows.RowOrder | packages/contracts/src/character-performance-aggregate-v1.ts:192-198 | the comparator is a total preorder for any `localeCompare` that is one |
| DungeonRows.RowLeExactly | packages/contracts/src/character-performance-aggregate-v1.ts:192-198 | the comparator orders by slug, then encounter with a missing one as -1, then specialization with a missing one as empty |
| DungeonRows.KeysAgreeExactly | packages/contracts/src/character-performance-aggregate-v1.ts:202 | for all slugs: rows share a key exactly when slug, encounter and specialization agree, up to the text null, or one slug swallows the other with its encounter |
| DungeonRows.PlainKeysAgreeExactly | packages/contracts/src/character-performance-aggregate-v1.ts:202 | for slugs without `::`, exactly when slug and encounter agree and the specializations do up to the text null |
| DungeonRows.SeparatorInSlugCollides | packages/contracts/src/character-performance-aggregate-v1.ts:202 | with the separator in a slug different rows share a key |
| DungeonRows.NullSpecializationCollides | packages/contracts/src/character-performance-aggregate-v1.ts:202 | a missing specialization and the one named null share a key |
| DungeonRows.DedupeDungeonAggregates | packages/contracts/src/character-performance-aggregate-v1.ts:189-208 | the loop with the set of seen keys computes the specification the following rows are about |
| DungeonRows.DedupeExactly | packages/contracts/src/character-performance-aggregate-v1.ts:185-208 | the result is, place by place, the first row of each key among the rows in stable ascending order, and nothing else is |
| DungeonRows.DedupeOneRowPerKey | packages/contracts/src/character-performance-aggregate-v1.ts:189-208 | the result is sorted, holds only input rows, and has exactly one row for each key of the input |
| DungeonRows.DedupeKeepsFirstInOrder | packages/contracts/src/character-performance-aggregate-v1.ts:185-208 | for all rows, a row survives exactly when it is the first of its key in the stably sorted rows |
| DungeonRows.DedupeKeepsFirstOfInput | packages/contracts/src/character-performance-aggregate-v1.ts:185-208 | for slugs without `::` and specializations other than the text null a row survives exactly when it is the first of its key in the input |
| DungeonRows.DedupeIdempotent | packages/contracts/src/character-performance-aggregate-v1.ts:189-208 | a second application changes nothing |
| PerformanceAggregate.AcceptedIsValid | packages/contracts/src/character-performance-aggregate-v2.ts:185-377 | what the validator accepts satisfies the independent description of a valid compact value |
| AggregateReading.RowExactly | packages/contracts/src/character-performance-aggregate-v2.ts:107-183 | a raw row is accepted as a row exactly when it holds its fields and these are valid |
| AggregateReading.AcceptsExactly | packages/contracts/src/character-performance-aggregate-v2.ts:185-377 | a raw value is accepted as a compact one exactly when every field reads as its field, the rows of each channel are the first of every key of the raw rows, and nothing required is missing |
| PerformanceAggregate.ColumnsRoundTripExactly | packages/contracts/src/character-performance-aggregate-v2.ts:382-474 | the columns give a compact value back exactly when it is valid |
| PerformanceAggregate.AcceptedSurvivesColumns | packages/contracts/src/character-performance-aggregate-v2.ts:262-474 | whatever the validator accepts, from any source, survives the columns unchanged |
| CatalogValidation.WalkReplacement | packages/abilities/src/validation.ts:18-32 | terminates on every map; null exactly when the chain ends, otherwise the linked path up to its first repeated key |
| CatalogValidation.ClaimIds | packages/abilities/src/validation.ts:114-138 | the loop over ids updates the owners and reports exactly the conflicts and the shared ids |
| CatalogValidation.ValidateAbilityCatalog | packages/abilities/src/validation.ts:35-171 | valid exactly for catalogs with well-formed rules, distinct keys, agreeing shared ids and well-founded replacements, though only recorded owners are compared; every reported cycle, missing target and conflict is real |
| CatalogValidation.ValidIndexComplete | packages/abilities/src/validation.ts:47-62 | in a valid catalog the key map holds every rule |
| CatalogValidation.ValidReplacementsWellFounded | packages/abilities/src/validation.ts:150-171 | the replacement relation of a valid catalog is closed and every chain ends |
| CatalogValidation.ValidHasNoCycle | packages/abilities/src/validation.ts:150-171 | no rule replaces itself at any distance |
| CatalogRegistry.ResolvableExactly | packages/abilities/src/registry.ts:323-335 | exactly the positive listed ids resolve to a rule |
| CatalogRegistry.ResolvableAscend | packages/abilities/src/registry.ts:323-335 | each once, in ascending order |
| CatalogRegistry.DelegationSearchesOnePool | packages/abilities/src/registry.ts:357-419 | delegation between registry and contexts terminates and always answers from one pool |
| CatalogRegistry.AnswerExactly | packages/abilities/src/registry.ts:353-419 | the answer goes by the places of the pool that list the id and are not excluded: none is unmatched, one is a match, more are ambiguous and listed in the order of their keys |
| CatalogRegistry.ResolutionListsAllMatches | packages/abilities/src/registry.ts:353-387 | the answer lists exactly the matching rules: collisions are never resolved silently |
| CatalogRegistry.AnswerAgreesExactly | packages/abilities/src/registry.ts:353-387 | for a positive id the rules of the answer are of one category and class exactly when all rules of the pool that list the id anywhere and are not excluded are |
| CatalogRegistry.UnfilteredAnswerAgreesExactly | packages/abilities/src/registry.ts:353-387 | without class and specialization, exactly when every two rules that list the id agree |
| CatalogRegistry.AmbiguousRulesAgree | packages/abilities/src/registry.ts:357-419 | so over a valid catalog always, for ids no rule lists as activation, buff or effect |
| CatalogRegistry.SharedBuffDisagrees | packages/abilities/src/validation.ts:114-138 | for a shared buff id a valid catalog can give an ambiguous answer of two categories |
| CatalogRegistry.FiltersAgree | packages/abilities/src/catalog-context.ts:88-104 | the context's filter and the registry's own, written separately, keep the same rules in the same order |
| CatalogRegistry.StaticServesExactly | packages/abilities/src/registry.ts:190-290 | each reason of refusal exactly, in order; a served catalog holds, in pool order, exactly the rules of class, specialization and role, racials and shared rules if asked for, under the stated version and support state |
| CatalogRegistry.RulesServeExactly | packages/abilities/src/catalog-context.ts:217-308 | the same for a context made from rules, always under the current version record |
| CatalogRegistry.CatalogServesExactly | packages/abilities/src/catalog-context.ts:205-308 | whoever is asked, the served rules are exactly those to be served of the one pool in charge |
| CatalogRegistry.LaddersAgree | packages/abilities/src/catalog-context.ts:217-307 | over a topology that mirrors the class matrix the two separately written resolvers refuse alike, and serve the same rules under the same versions but for a named game version |
| CatalogRegistry.ReleaseMirrorsStaticExactly | packages/abilities/src/catalog-context.ts:217-308 | a context that mirrors the registry gives its result exactly for refused lookups and for an absent or current game version |
| CatalogRegistry.ActivatingMirrorExactly | packages/abilities/src/registry.ts:180-188 | activating such a release changes no spell resolution, and a catalog resolution exactly when one is served for another game version |
| Applicability.GetApplicableAbilityCategories | packages/abilities/src/applicability.ts:260-320 | one result for every category in order: refused catalogs close it with their reason; of a served one the state, the rules named, their order and the reason follow from what the evidence says of the rules |
| Applicability.ResolvedExactly | packages/abilities/src/applicability.ts:109-152 | available exactly when an own id was observed, or the race gate is open and a needed talent is known; unknown exactly when the race or the talents are missing; each reason exactly |
| Applicability.CatalogForServes | packages/abilities/src/applicability.ts:225-237 | the catalog judged holds exactly the rules for the run, shared ones included, racials if asked for |
| Applicability.ApplicableExactly | packages/abilities/src/applicability.ts:154-219 | a judged category is applicable exactly when the evidence lets some rule be used, and names exactly those |
| Applicability.ObservationDecides | packages/abilities/src/applicability.ts:109-152 | an observation makes a rule available or changes nothing about it |
| Applicability.ObservingNeverLowers | packages/abilities/src/applicability.ts:260-320 | more observed ids never lower a category and never drop a named available rule |
| Applicability.TalentsSettleOnlyUncertain | packages/abilities/src/applicability.ts:139-148 | filling in talent data changes the state of uncertain categories only, and nothing at all about closed ones |
| Applicability.ClosedWhenAllUnavailable | packages/abilities/src/applicability.ts:154-219 | with the race known a judged category is closed exactly when every rule is unavailable |
| Applicability.RaceReopensExactly | packages/abilities/src/applicability.ts:189-202 | learning the race reopens a closed category exactly when some race-gated rule of it admits the race and is not excluded by talents |
| Applicability.RaceReopensClosed | packages/abilities/src/applicability.ts:189-202 | a closed category that does reopen |
| ScoreRefresh.DiagnosticsNeverAct | packages/config/src/score-refresh-decision.ts:186-227 | contract reasons never change a decision, grade and provider times never change the action, and nothing recalculates |
| ScoreRefresh.StatusesAreHonest | packages/config/src/score-refresh-decision.ts:51-56 | queued is shown only with a live or just enqueued job, and a published score stays visible in every state |
| ScoreRefresh.DecisionExactly | packages/config/src/score-refresh-decision.ts:229-357 | every action and every public state exactly, from the facts |
| ScoreRefresh.ReasonExactly | packages/config/src/score-refresh-decision.ts:229-357 | every reason and every status exactly |
| ScoreRefresh.WarningsExactly | packages/config/src/score-refresh-decision.ts:229-357 | every warning exactly |
| ScoreRefresh.EnqueuePersists | packages/config/src/score-refresh-decision.ts:135-357 | with facts fixed an enqueue decision stays one as time grows |
| ScoreRefresh.EventuallyEnqueuesExactly | packages/config/src/score-refresh-decision.ts:135-357 | waiting leads to an enqueue exactly when no live job, eligibility failure without a score, or ordinary failure without a finish time stands in the way |
| RefreshRuns.NoDecisionWithinTtl | apps/api/src/services/character-service.ts:980-1105 | from any state: after a publication no reader that began to read since decides to enqueue within the lifetime, unless its rating rose or an older score was published over it |
| RefreshRuns.NoCreationWithinTtl | apps/api/src/services/character-service.ts:1084-1148 | from any state: nor is a job created, unless by a reader in flight at the publication or one that decided since on a risen rating, or after an older publication |
| RefreshRuns.NoDecisionWithinBackoff | packages/config/src/score-refresh-decision.ts:150-169 | from any state: after an ordinary failure no reader that began to read since and found no newer job of another key decides to enqueue within the backoff, unless a job slipped in or the ended row was written about |
| RefreshRuns.NoCreationWithinBackoff | apps/api/src/services/character-service.ts:1084-1148 | from any state: nor is a job created, unless by then one was by a reader in flight at the failure or that had found a newer job, or the ended row was written about |
| RefreshRuns.FirstCreationAfterFailure | apps/api/src/services/character-service.ts:1084-1148 | the first job after the failure, with no such write, is past the backoff or of a reader that was in flight or had found a newer job |
| RefreshRuns.AtomicKeepsTtl | apps/api/src/services/character-service.ts:980-1148 | where readers act one at a time, every job within the lifetime comes of a risen rating or an older publication |
| RefreshRuns.AtomicKeepsBackoff | apps/api/src/services/character-service.ts:980-1148 | and the first job within the backoff is of a reader that found a newer job of another key or wrote the failure itself |
| RefreshRaces.WaitingBreaksTtl | apps/api/src/services/character-service.ts:1084-1148 | from any state in which a reader has decided, a score may be published and that reader create a job at the same moment, no rating having risen |
| RefreshRaces.UninformedBreaksTtl | apps/api/src/services/character-service.ts:1813-1836 | likewise from any state in which a reader has only read that there is no score in its lifetime |
| RefreshRaces.WaitingBreaksBackoff | apps/api/src/services/character-service.ts:1084-1148 | from any state in which a reader has decided, the job may fail and that reader create the next at the same moment |
| RefreshRaces.StaleVisit | apps/worker/src/persistence/job-repository.ts:547-571 | from any state with a stale row, a new reader alone gives it up, decides on the row as it was, and creates a job within the backoff of the failure it wrote |
| RefreshRaces.SlowReaderBreaksTtl | apps/api/src/services/character-service.ts:1084-1148 | a run from the beginning in which a reader that has decided breaks the lifetime |
| RefreshRaces.TornReadBreaksTtl | apps/api/src/services/character-service.ts:1813-1836 | a run in which a reader that has just begun breaks the lifetime |
| RefreshRaces.OlderPublicationBreaksTtl | apps/worker/src/persistence/score-repository.ts:543-640 | a run with one reader at a time in which an older score is published over a newer one and a job is created within the lifetime of the newer |
| RefreshRaces.SlowReaderBreaksBackoff | apps/api/src/services/character-service.ts:1084-1148 | a run in which a reader that has decided breaks the backoff |
| RefreshRaces.StaleReaderBreaksBackoff | apps/worker/src/persistence/job-repository.ts:547-571 | a run with one reader at a time in which a reader breaks the backoff of its own giving up |
| RefreshRaces.LateSuccessBreaksBackoff | apps/worker/src/persistence/job-repository.ts:372-377 | a run with one reader at a time in which a worker given up as stale reports success and a job is created within the backoff |
| RefreshRaces.NewerJobBreaksBackoff | apps/worker/src/persistence/job-repository.ts:608-613 | a run with one reader at a time in which any newer job of another key that has not failed hides the failure |
| RefreshRaces.HiddenFailureBreaksBackoff | apps/worker/src/persistence/job-repository.ts:342-354 | a run with one reader at a time in which a redelivered message fails on a row that names no character, and a job is created at once |
| RefreshRaces.AbandonsPlaceholder | apps/worker/src/persistence/job-repository.ts:239-256 | a run of one reader without any job or worker that leaves a placeholder, which is a failure as the backoff theorems understand it |
| RefreshRaces.PlaceholderDecides | packages/config/src/score-refresh-decision.ts:304-357 | a reader that finds a placeholder backs off exactly while it is young and no score is fresh, and enqueues exactly when it is old and none is, score or no score |
| JobClaims.ClaimsSeparated | apps/worker/src/persistence/job-repository.ts:206-285 | for all interleavings the row of a key has ended between two winning claims of it |
| JobOverlaps.TwoOpenOnlyAfter | apps/worker/src/orchestration/enqueue.ts:51-143 | in every run two executions of a key are open at once only after a row was given up as stale or ended by other code while one was open, or the reply of an add was lost |
| JobOverlaps.QuietRunsAlone | apps/worker/src/orchestration/enqueue.ts:41-50 | so where no step sees a stale row of the key, no other code ends it and no reply is lost, two are never open at once, and an open one has a live row |
| JobRaces.CanOverlapExactly | apps/worker/src/orchestration/enqueue.ts:51-143 | from a state with no lost reply pending, two can come to be open without those steps exactly when one is open under an ended row, or two are open already |
| JobRaces.StaleRecoveryOverlaps | apps/worker/src/persistence/job-repository.ts:206-238 | from any state in which an execution is open and its row queued for too long, one new enqueuer makes two open |
| JobRaces.LostReplyEnds | apps/worker/src/orchestration/enqueue.ts:106-127 | from any state in which a winner asks the queue, a lost reply leads to an execution open under an ended row |
| JobRaces.TwoWorkersOneJob | apps/worker/src/persistence/job-repository.ts:310-370 | a run from the beginning in which two workers run the same job at once |
| Delimited.SplitOfJoin | packages/contracts/src/capability-evidence-v1.ts:274-288 | splitting inverts joining when no part holds the separator |
| ContractMaterial.MaterialExactly | packages/contracts/src/refresh-contract.ts:91-108 | the thirteen fields in their order, each after its name, joined by bars |
| ContractMaterial.MaterialInjective | packages/contracts/src/refresh-contract.ts:91-108 | contracts in which no text field holds what reads as its own end have equal materials exactly when they are equal, null told from numeric zone and partition included |
| ContractMaterial.BarFreeIsUnmistakable | packages/contracts/src/refresh-contract.ts:91-108 | texts without the separator are enough for that |
| ContractMaterial.BoundaryMoves | packages/contracts/src/refresh-contract.ts:91-108 | for every boundary between two text fields and all texts: a field that holds it shares its material with the contract where it is moved |
| ContractMaterial.VersionMoves | packages/contracts/src/refresh-contract.ts:91-108 | and likewise a model key that holds a whole version field |
| ContractMaterial.MistakableCollides | packages/contracts/src/refresh-contract.ts:91-108 | so every contract outside the guard shares its material with another one |
| RefreshContract.ParseInvertsStore | packages/contracts/src/refresh-contract.ts:123-166 | a stored contract reads back exactly when its model version is finite and its execution key is not empty |
| RefreshContract.LegacyContractIsStatic | packages/contracts/src/refresh-contract.ts:144-149 | a contract without an execution key reads as the static one of its catalog |
| RefreshContract.RefreshContractStaleReasons | packages/contracts/src/refresh-contract.ts:169-184 | the loop reports exactly the reasons of differing fields, each once, in table order |
| RefreshContract.NoReasonsMeansCompatible | packages/contracts/src/refresh-contract.ts:114-184 | no reasons means compatible, for all strings and any hash |
| RefreshContract.NoReasonsExactlyWhenCompatible | packages/contracts/src/refresh-contract.ts:114-184 | for unmistakable contracts and a hash without a collision on the two materials, no reasons exactly when compatible and free of NaN |
| Sanitizer.SanitizeWalk | packages/contracts/src/explainability-v2.ts:476-507 | the recursive loops compute the specification the following rows are about |
| Sanitizer.WalkedPlaceByPlace | packages/contracts/src/explainability-v2.ts:476-507 | what stands at every place of the output, from what stands there in the input |
| Sanitizer.UnchangedExactly | packages/contracts/src/explainability-v2.ts:476-507 | the walk leaves alone exactly the values that satisfy the independent description of a sanitized value |
| Sanitizer.WalkIdempotent | packages/contracts/src/explainability-v2.ts:468-507 | sanitizing again changes nothing |
| Sanitizer.NothingLeaks | packages/contracts/src/explainability-v2.ts:468-512 | at every position depth is bounded and arrays have at most 100 items; stripped output has no report-code-like string and only null under sensitive keys |
| Sanitizer.KeysKept | packages/contracts/src/explainability-v2.ts:492-506 | exactly the keys of an object survive, but for the one that sets the prototype |
| Sanitizer.StrippedMentionsExactly | packages/contracts/src/explainability-v2.ts:476-512 | stripped output holds a report code, as a string or as a key, exactly when the walk reaches a key that is one |
| Sanitizer.CodeAsKeySurvives | packages/contracts/src/explainability-v2.ts:493-512 | a key that looks like a report code survives stripping |
| PublicExplanation.EmittableExactly | packages/contracts/src/explainability-v2.ts:554-582 | every publication state exactly: published or provisional only when every lifecycle is published and the coverage is known good |
| PublicExplanation.ContributorsCanonical | packages/contracts/src/explainability-v2.ts:610-622 | with keys that compare as different the order depends only on which contributors there are |
| PublicExplanation.ContributorsOrdered | packages/contracts/src/explainability-v2.ts:604-622 | a rearrangement: scored before unscored, then the farther from neutral, then the higher score, then the smaller key |
| PublicExplanation.ScoredFirst | packages/contracts/src/explainability-v2.ts:604-622 | scored contributors come first, by falling distance from neutral |
| PublicExplanation.EqualKeysKeepInputOrder | packages/contracts/src/explainability-v2.ts:610-622 | keys that compare as equal keep the order they came in |
| CapabilityEvidence.SortedTextExactly | packages/contracts/src/capability-evidence-v1.ts:229-234 | the hashed texts of two lists agree exactly when the lists hold the same set of finite numbers |
| CapabilityEvidence.SortedTextAscends | packages/contracts/src/capability-evidence-v1.ts:229-234 | the numbers hashed ascend strictly |
| CapabilityEvidence.CapabilityTextExactly | packages/contracts/src/capability-evidence-v1.ts:236-238 | the hashed texts of two lists of names agree exactly when they are the same multiset |
| CapabilityEvidence.CapabilityTextAscends | packages/contracts/src/capability-evidence-v1.ts:236-238 | the names hashed ascend by code unit |
| CapabilityEvidence.KeysAgreeExactly | packages/contracts/src/capability-evidence-v1.ts:271-289 | for identities in which no text but the last holds what reads as its end, and a hash without a collision on the capability texts, keys agree exactly when identities do; different ability filters never share a key |
| CapabilityEvidence.BarFreeIsUnmistakable | packages/contracts/src/capability-evidence-v1.ts:271-289 | texts without the separator are enough for that |
| CapabilityEvidence.TextBoundaryMoves | packages/contracts/src/capability-evidence-v1.ts:271-289 | from the actors on, an identity with a text that holds its end shares its key with the one in which the boundary is moved, for all texts |
| NegativeCaching.KeyExactly | apps/worker/src/negative-cache.ts:19-25 | region, realm and name, normalized, with bars between |
| NegativeCaching.KeysAgreeExactly | apps/worker/src/negative-cache.ts:19-25 | identities share an entry exactly when their normalized parts agree, if region and realm hold no separator; the name may |
| NegativeCaching.SeparatorCollides | apps/worker/src/negative-cache.ts:19-25 | a separator in either of the first two parts makes another triple join to the same key |
| NegativeCaching.EntriesExactly | apps/worker/src/negative-cache.ts:27-44 | after any calls at any times the entries are the keys set, not cleared and not evicted since, with the expiry of the last set |
| NegativeCaching.AnswersHistoryExactly | apps/worker/src/negative-cache.ts:31-40 | at any times a lookup answers what the history says exactly unless the history remembers the key and a lookup has evicted it |
| NegativeCaching.EvictionUnobservable | apps/worker/src/negative-cache.ts:27-44 | at nondecreasing times every lookup answers what the history of calls says |
| NegativeCaching.ClockGoingBackForgets | apps/worker/src/negative-cache.ts:31-40 | a run in which time goes back and the entry is forgotten |
| NegativeCaching.SizeCoversLiveKeys | apps/worker/src/negative-cache.ts:46-48 | the size never undercounts live keys, and extra entries are expired |
| NegativeCaching.NegativeCache.Set | apps/worker/src/negative-cache.ts:27-29 | the call is recorded in the history the entries stand for |
| NegativeCaching.NegativeCache.Has | apps/worker/src/negative-cache.ts:31-40 | the answer in terms of the history at any times, and the history's own answer while times do not go back, with eviction in place |
| NegativeCaching.NegativeCache.Clear | apps/worker/src/negative-cache.ts:42-44 | exactly the one key is forgotten |
| NegativeCaching.NegativeCache.Size | apps/worker/src/negative-cache.ts:46-48 | the number of entries, never below the number of live keys |

## Left out

- UTF-8 encoding of strings before hashing and decoding after reading: `sha256Hex` is modelled on bytes.
- gzip and zstd, `fsync` durability, directory creation and Windows rename details: a codec is any pair whose decoder inverts what the encoder returned, and a directory is a map.
- The second, path-library based traversal check of `resolveContentAddressedPath`: a hash of 64 hex digits cannot fail it.
- The exact outcome of the compressed-size check in the interleaved protocol: any compressing step may raise it there; the class method raises it exactly when the bound is exceeded.
- How a double prints: numbers are carried by their text, or through a printer assumed to tell the finite doubles apart; negative zero is zero.
- Rounding: scores, percentiles and ratings are reals.
- Locale collation: `localeCompare` is any total preorder of strings.
- The V1 assert, which repeats the V2 checks on a smaller record, and the participant digest, which is a projection of a record followed by hashing.
- Content hashes of aggregates: equal values have equal hashes, so the round trip settles them.
- The unreachable-rule check of the validator: it compares a freshly built array with itself by identity and so never fires.
- `classes-matrix`, the identity normalizer and the version table are parameters; race slugs are normalized by a parameter.
- Jobs of other keys, forced refreshes among them, appear in a profile read only as the answers a search by character may give, not as rows of their own.
- Season authority and eligibility checks between decision and enqueue appear as an enqueue that may be dropped; the cache of whole responses before a read is left out. Readers and stores share one clock that does not go back.
- The published score is read in one step, although the source first reads which snapshot it is; rows are never deleted.
- The work of an execution between its start and its end, with its admission lanes and permits: a message is taken by one worker, whose writes to the row are modelled; in the refresh protocol a redelivery is a requeue of the row at any time.
- `resolveAbilityCapability`'s default branch for an availability outside the type, and the interrupt profile.
- The assembly of public and admin explanation objects around the modelled gate, sanitizer and ordering, and `mapPublicLimitations`: record projection and constant vocabulary.
- Regular-expression matching of sensitive keys is modelled as containment of the listed words after dropping `_` and `-` and folding ASCII case.
- Zod schemas, DTO interfaces and constant tables; HTTP, queue, Redis and database code.
