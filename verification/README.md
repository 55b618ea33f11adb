# GitRepository propagation

A model of how this service keeps a GitHub token and a Flux GitRepository in each managed control
plane (MCP) that a GitRepository is propagated to. The reconciler makes level-triggered passes over
four stores: the onboarding cluster (GitRepositories, AppInstallations, ControlPlanes), the platform
cluster (AccessRequests, GitHubInstances, credential Secrets), the MCPs, and GitHub as a minter of
tokens. The theorems are about whole runs: tokens that never lapse, how often one is minted, which
cluster a token ends up in, what may be overwritten or deleted, and when passes come to rest.

Every operation that changes state is a method of a class with the state as its fields, and its
`ensures` equates result and new state with a function of the old ones; the theorems are lemmas
about those functions. Lemmas in plain terms (`PassMeaning` and those called `...Meaning`) say what the
functions mean without their names: literal keys, reasons, dates and delays. How API calls turn out is a parameter of each pass: a read is answered or
fails; a write is applied, lost, or applied although the caller is told that it failed. A failure
can be put at any call, and in `PropagateRuns` and `SystemRuns` a pass can also stop after any of its
writes to an MCP.

| files | content |
|---|---|
| `GoTime`, `Calendar`, `Rfc3339` | int64 durations with saturation and wrap-around; dates and leap years; the text of an expiry |
| `Names` | the joined strings that stand for identities |
| `McpStore`, `PlatformStore`, `Propagate`, `PropagateRuns` | the stores; internal/propagate; runs inside one MCP |
| `McpAccess`, `AccessRequests` | internal/mcpaccess |
| `Credentials`, `Controller`, `GitHubInstances`, `AppInstallations` | what feeds credentials and installation IDs |
| `StatusList`, `Deadlines` | the `propagated` list and the requeue fold |
| `GitRepositoryController`, `GitRepositoryReconciler`, `PassMeaning` | one pass, as functions, as methods and in plain terms |
| `TokenRuns`, `TokenValidity`, `ReadyStatus`, `Convergence` | the token Secret, the loop over targets, what Ready says, and when passes come to rest |
| `ReconcilePasses`, `ReconcileRuns`, `MintRuns`, `Deletion`, `DeletionRuns`, `SystemRuns`, `RateBound` | whole passes in any order: tokens over time, mint rates, deletion, crashes |

Assumptions that the theorems name:

- One clock reading per pass; reading an object and then writing it is atomic.
- Tokens hold between a pass that gets through to its loop (`GetsThrough`: the App is shown as
  installed, credentials load, all targets resolve) and the next start. A pass can be stuck before
  its loop without any API error, and then tokens do lapse; when is said below.
- In the pass spoken of the reads that decide on rotation are answered, and GitHub's expiries are true
  and beyond the renew buffer, by a second if control planes may share a cluster.
- The requests of the (GitRepository, control plane) pairs in play do not share names across clusters
  (`NamesSeparate`); an injective hash and hyphen-safe names are enough for that. Where a theorem
  speaks of one MCP for one control plane in deletion, different control planes have different
  clusters (`ClustersSeparate`).
- For the status list, namespaces hold no "/" (Kubernetes guarantees that one).
- Mint rates are for one life of a GitRepository: one that is created anew under the name of a deleted
  one starts afresh.
- Only the integrity theorems assume a single GitRepository of its name, because Secret and Flux
  names omit the namespace.

## Where the code says less than its comments

- Deadline and rotation check agree exactly when the int64 arithmetic stays in range (`GoTime.ReadersAgree`).
  A token without expiry carries Go's zero time. Some 292 years after that it is due for rotation at any
  time, but its deadline wraps around to another 292 years (`GoTime.ZeroTimeIsForgotten`).
- Without any API error, rotation can stop for good while the status goes on showing expiries: an App
  that is uninstalled, an instance that does not list exactly one Secret, or one control plane that is
  denied or has no cluster stops it for all (`ReconcilePasses.GetsThroughExactly`,
  `ReconcilePasses.BarredStopsRotation`). Such a stuck pass changes no MCP and no status entry and asks for the
  usual ten minutes, and tokens lapse when they expire (`ReconcileRuns.LapsesExactly`, `ReconcileRuns.DeniedTokenLapses`).
- The requeue fold is the minimum exactly if there is no zero deadline or the last one is zero
  (`Deadlines.FoldIsMinExactly`). Under lifetimes beyond the buffer and with rotation reads answered no
  deadline is zero; with one that fails a zero can arise and be forgotten
  (`TokenValidity.ZeroDeadlineExactly`, `TokenValidity.UnreadRotationForgotten`).
- A cleanup that cannot read the Flux object still deletes the Secret, and that is exactly the case in
  which it breaks integrity (`PropagateRuns.CleanupKeepsIntegrity`).
- Integrity is kept by every run exactly for a GitRepository whose name no other one in play has
  (`PropagateRuns.IntegrityExactly`).
- Names with "--" can cross clusters (`AccessRequests.UnsafeNamesCrossClusters`), and runs are safe exactly
  if no two pairs with different clusters share a name (`AccessRequests.RightClustersExactly`).
- Deletion leaks over several passes: a pass that fails in an MCP has already deleted its AccessRequests,
  and the next one no longer has access (`DeletionRuns.FailedCleanupLeaks`). Both objects can stay, or the
  token Secret alone if only its deletion is lost (`DeletionRuns.LeakHappens`). Exactly when is
  `DeletionRuns.RunLeavesExactly` for any number of passes and `DeletionRuns.TwoPassesLeakExactly` for two.
- While a control plane is denied or has no cluster, its GitRepository cannot be deleted, and any other
  one can be (`DeletionRuns.DeletableExactly`).
- Ready says nothing about the Flux object unless the token was just replaced, and edits of the spec reach
  an MCP only then (`ReadyStatus.ReadyExactly`, `ReadyStatus.NoWritesUntilDue`). A Flux object that could not
  be written is missing under Ready until the next rotation (`ReadyStatus.FluxFailureHidden`).
- A conflict is reported once and then replaced by Ready until the token is due
  (`Convergence.ConflictReportedAgain`).
- A lifetime beyond the buffer is not quite enough for the second pass to be quiet: the expiry has to
  lie beyond the buffer after it was cut to the second (`Convergence.SecondVisitDue`).
- The GitRepository controller never passes a credential name, so an instance with several Secrets
  serves nobody, although it can be Ready (`ReconcilePasses.SeveralSecretsStick`).

## Model

| member | source | states |
|---|---|---|
| ReconcileRuns.TokensHoldInRightCluster | internal/controller/core/gitrepository_controller.go:114-227 | in any run of passes, which may take any branch and fail anywhere, with nobody else writing the token Secrets: if pass i gets through to its loop and the next one starts less than the buffer after the delay asked for, whatever control plane pass i leaves in the status with an expiry has, in the MCP of just that control plane, a token unexpired up to the start of the next pass |
| ReconcileRuns.EntryHoldsExactly | internal/controller/core/gitrepository_controller.go:139-227 | pass by pass, an entry left in the status holds up to the next start exactly if the pass got through or the token it found outlives that start |
| ReconcileRuns.LapsesExactly | internal/controller/core/gitrepository_controller.go:139-203 | after a pass that got through, however many stuck passes follow, the entry stays in the status and holds exactly as long as the token that pass left is unexpired, surely up to its delay and the buffer |
| ReconcileRuns.DeniedTokenLapses | internal/mcpaccess/resolver.go:130-132 | for any two control planes there are contents in which every call succeeds, the App and instance are in order, and one denied control plane lets the granted one's token lapse while the status still shows it |
| ReconcilePasses.GetsThroughExactly | internal/controller/core/gitrepository_controller.go:139-203 | with every call answered, a pass gets through to its loop exactly if the App is shown as installed with an ID, its instance lists one Secret and is ready, and every wanted control plane has a cluster and was not denied |
| ReconcilePasses.BarredStopsRotation | internal/mcpaccess/resolver.go:85-141 | one target that is denied or has no cluster stops rotation for all of them, whatever the calls, and stays so |
| TokenValidity.PassIsGood | internal/controller/core/gitrepository_controller.go:184-288 | after a loop, each listed entry with an expiry has a target whose Secret holds a token good for longer than the delay asked for and the buffer, with clusters of their own or lifetimes one second beyond the buffer |
| TokenValidity.VisitAllParts | internal/controller/core/gitrepository_controller.go:211-213 | with distinct clusters the loop treats each target as if it were alone: own status entry, own MCP changed by its own writes only |
| TokenValidity.VisitIsGood | internal/controller/core/gitrepository_controller.go:231-290 | where the rotation read is answered, a status entry with an expiry stands for a token good until then, due for rotation more than the buffer from now |
| TokenValidity.DelayIsEarliest | internal/controller/core/gitrepository_controller.go:211-227 | with expiries beyond the buffer, the delay is the true minimum of the deadlines, so the next pass comes at least the buffer before any expiry |
| TokenValidity.ZeroDeadlineExactly | internal/controller/core/gitrepository_controller.go:216-218 | with lifetimes beyond the buffer a target has deadline zero exactly if its rotation read fails, the read for the status succeeds and the expiry stored there has that deadline |
| TokenValidity.UnreadRotationForgotten | internal/controller/core/gitrepository_controller.go:211-221 | such a zero, followed by a target with a positive deadline, is forgotten: the next pass is asked for by the second target alone although the first one's token is due |
| MintRuns.PassMintRate | internal/controller/core/gitrepository_controller.go:114-288 | for runs of whole passes, taking any branch, failing anywhere and triggered at any time, at most 1 + d / (life - buffer - 1s) passes in a window of length d mint for one MCP, if tokens live that long and reach their Secret |
| MintRuns.ControlPlaneMintRate | internal/controller/core/gitrepository_controller.go:184-288 | the same for each control plane, with requests at the right clusters |
| MintRuns.PassMintsFarApart | internal/controller/core/gitrepository_controller.go:184-288 | two passes that mint for one MCP lie more than life - buffer - 1s apart |
| MintRuns.OneMintPerLoop | internal/controller/core/gitrepository_controller.go:211-213 | a pass mints at most one token for an MCP, even if targets share it |
| MintRuns.MintsIntoSome | internal/controller/core/gitrepository_controller.go:184-227 | a pass mints anything exactly if it mints for some MCP |
| TokenValidity.VisitAllMinted | internal/controller/core/gitrepository_controller.go:211-213 | with distinct clusters a pass mints exactly what its targets would each mint alone |
| TokenRuns.MintsFarApart | internal/propagate/propagate.go:61-153 | two mints into one Secret lie more than life - buffer - 1s apart, however often visits are triggered and even if the Flux step fails or conflicts |
| TokenRuns.MintRate | internal/propagate/propagate.go:61-153 | any window of length d contains at most 1 + d / (life - buffer - 1s) mints |
| TokenRuns.SyncDelivers | internal/propagate/propagate.go:61-89 | error-free exactly if every call succeeds; conflict exactly if the Flux object is someone else's; otherwise Flux, following its secretRef, finds the new token, with the wanted URL and ref; no other object changes |
| TokenRuns.WrittenObjects | internal/propagate/propagate.go:146-231 | the Secret and the Flux object field by field: GitHub's token under bearerToken, managed-by, expiry, kept annotations and type, URL, interval, secretRef and reference |
| TokenRuns.SecretAfterSync | internal/propagate/propagate.go:146-178 | whatever fails, the token Secret afterwards is the new one exactly if a mint, the read and a write that took effect happened, and the old one otherwise |
| Propagate.OwnedMeaning | internal/propagate/propagate.go:99-111 | own is what carries namespace and name joined by a slash, under the GitRepository's name and that name plus -token |
| Propagate.RotationMeaning | internal/propagate/propagate.go:125-143 | needed iff the read is answered and there is no Secret, no readable expiry, or one within the buffer; the expiry shown is the readable one |
| Propagate.SyncErrorMeaning | internal/propagate/propagate.go:61-89 | each error names the first call that failed |
| TokenRuns.StoredDecisionIsClose | internal/propagate/propagate.go:134-153 | deciding by the written expiry is never later than by GitHub's and less than a second early |
| GoTime.ReadersAgree | internal/controller/core/gitrepository_controller.go:216-218 | the deadline d computed at t and NeedsRotation at t+s agree (due iff s >= d) for all s exactly when the subtraction does not wrap and time.Until does not saturate upwards |
| GoTime.DueMeaning | internal/propagate/propagate.go:142 | rotation is due exactly if no more than the buffer is left, despite saturation |
| GoTime.DeadlineMeaning | internal/controller/core/gitrepository_controller.go:216-218 | within int64 the deadline is what is left beyond the buffer, or 0 |
| Deadlines.FoldIsMinAfterLastZero | internal/controller/core/gitrepository_controller.go:211-221 | the fold is the minimum of the deadlines after the last zero, 0 if none follow |
| Deadlines.FoldIsMinExactly | internal/controller/core/gitrepository_controller.go:211-221 | it is the minimum of all exactly if there is no zero or the last deadline is zero |
| Rfc3339.RoundTrip | internal/propagate/propagate.go:134-153 | parsing the written text gives the instant floored to the second exactly for the years 0 to 9999 |
| Rfc3339.CanonicalText | internal/propagate/propagate.go:134-153 | conversely an accepted text of whole seconds in UTC is the one written for what it was read as |
| Rfc3339.TextMeaning | internal/propagate/propagate.go:134-153 | a text of twenty characters is read exactly if it is a well-formed UTC time, digit by digit, as the instant it says in the Gregorian calendar; with RoundTrip that fixes the written text |
| Rfc3339.OffsetMeaning | internal/propagate/propagate.go:138 | a text with an offset is read as local time minus the offset |
| Rfc3339.FractionMeaning | internal/propagate/propagate.go:138 | milliseconds count towards the instant |
| Calendar.FromDaysValid | internal/propagate/propagate.go:153 | every day number is the day of a valid date of the Gregorian calendar |
| Calendar.ToDaysInverse | internal/propagate/propagate.go:138 | and every valid date comes back from its day number |
| Calendar.DatesAreGregorian | internal/propagate/propagate.go:153 | valid dates have the month lengths of the Gregorian calendar, and the day number of each is 365(y-1) + (y-1)/4 - (y-1)/100 + (y-1)/400 plus the days before its month |
| Calendar.YearsInClosedForm | internal/propagate/propagate.go:153 | the years, summed up one by one, in closed form |
| PropagateRuns.PassWritesOwnObjects | internal/propagate/propagate.go:61-118 | a pass, cut short anywhere, writes only its token Secret and its Flux object, the latter only if absent or its own |
| PropagateRuns.ForeignFluxUntouched | internal/propagate/propagate.go:99-107 | over any run of passes of others in one MCP a Flux object stays exactly as it is |
| PropagateRuns.OwnerNeverChanges | internal/propagate/propagate.go:183-215 | the owner of a Flux object never changes between its creation and deletion, whatever passes run |
| PropagateRuns.CleanupKeepsIntegrity | internal/propagate/propagate.go:93-118 | cleanup keeps integrity after each of its calls exactly if it does not delete the Secret behind an own Flux object it failed to read |
| PropagateRuns.IntegrityAlways | internal/propagate/propagate.go:61-118 | after every API call of every run, failures and crashes included, an owned Flux object names a token Secret that exists |
| PropagateRuns.IntegrityExactly | internal/propagate/propagate.go:61-118 | for any set of GitRepositories in play, every accurately reading run, cut short anywhere, keeps the integrity of one of them if and only if no other one in the set has its name |
| PropagateRuns.SecondRepositoryBreaksIntegrity | internal/propagate/propagate.go:171-177 | without the one-name assumption it is false: a second GitRepository of the name takes the Secret over and deletes it |
| SystemRuns.PassMoves | internal/controller/core/gitrepository_controller.go:114-333 | the write log of a whole pass accounts for all that happens to the MCPs, and after any number of its writes every MCP has seen sync and cleanup steps of its own GitRepository, the last one possibly cut short |
| SystemRuns.ForeignFluxSafe | internal/controller/core/gitrepository_controller.go:114-333 | in every MCP and over every run of passes of any GitRepositories, complete or dying after any write, a Flux object is safe from all it does not name as owner |
| SystemRuns.IntegrityOverRuns | internal/controller/core/gitrepository_controller.go:114-333 | referential integrity in every MCP over every run of passes, complete or dying after any write, with changes by others in between |
| AccessRequests.EventsKeepRightClusters | internal/mcpaccess/resolver.go:105-175 | over all interleavings of resolves, cleanups, grants, denials and foreign requests, each stored request names the cluster of its own control plane |
| AccessRequests.RightClustersExactly | internal/mcpaccess/resolver.go:85-175 | for any set of (GitRepository, control plane) pairs, every interleaving of passes, grants, denials and foreign requests hands out right clusters if and only if no two of the pairs with different clusters share a request name |
| AccessRequests.GrantedClusterMeaning | internal/mcpaccess/resolver.go:105-175 | over all runs of pairs whose names separate, a granted cluster has the MCP's namespace and the control plane's own name |
| AccessRequests.SharedNameCrosses | internal/mcpaccess/resolver.go:105-141 | any two pairs, of one GitRepository or of two, that share a request name: once the first is granted, the second is handed the first one's cluster |
| AccessRequests.SafePairsSeparate | internal/mcpaccess/resolver.go:274-276 | hyphen-safe names and an injective hash are enough |
| AccessRequests.ResolveReportsRequests | internal/mcpaccess/resolver.go:105-141 | a successful pass reports each target as its stored request stands at the end: pending iff pending, a cluster iff granted, never denied |
| AccessRequests.ResolvesExactly | internal/mcpaccess/resolver.go:85-141 | with every call answered a resolve succeeds exactly if each target has a cluster and none is denied |
| AccessRequests.UnsafeNamesCrossClusters | internal/mcpaccess/resolver.go:274-276 | hyphen-safety is needed: whatever the hash, a GitRepository propagated to x--y/z and x/y--z is not safe |
| AccessRequests.ResolveOnlyAdds | internal/mcpaccess/resolver.go:146-175 | a pass changes no request and creates only those of its own targets |
| AccessRequests.CreatedRequest | internal/mcpaccess/resolver.go:105-175 | if a pair has no request, a pending one is created that names the MCP's namespace and the control plane; otherwise nothing changes |
| AccessRequests.ReportedTarget | internal/mcpaccess/resolver.go:105-141 | one target, by its stored request and its calls: error, pending, or granted with the stored cluster |
| ReconcilePasses.PassKeepsRightClusters | internal/controller/core/gitrepository_controller.go:114-333 | whole reconcile passes, propagating or deleting, keep every request at the right cluster |
| PassMeaning.StoredConditions | internal/controller/core/gitrepository_controller.go:137-168 | Ready and CredentialResolved are True exactly if the credential names an App that was read and is installed with an ID, with the reason otherwise, at the object's generation; all else in the object stays |
| PassMeaning.FirstPass | internal/controller/core/gitrepository_controller.go:128-135 | the first pass stores the finalizer, does nothing else and comes back at once |
| PassMeaning.LastPass | internal/controller/core/gitrepository_controller.go:328-332 | when the finalizer goes the object goes with it, unless others hold it |
| PassMeaning.OnlyOwnObject | internal/controller/core/gitrepository_controller.go:114-333 | no pass changes another object of the onboarding cluster or a credential |
| PassMeaning.ResultMeaning | internal/controller/core/gitrepository_controller.go:114-179 | a pass reports failure exactly if its object could not be read or written back, and otherwise asks to come back; a stuck one after ten minutes |
| PassMeaning.DeletionResult | internal/controller/core/gitrepository_controller.go:293-333 | a deletion pass that leaves the finalizer reports failure, and asks for ten minutes exactly if targets do not resolve or a turn fails |
| PassMeaning.DelayMeaning | internal/controller/core/gitrepository_controller.go:172-178 | without any expiry a pass through its loop asks for ten minutes, otherwise for the fold of the deadlines |
| PassMeaning.ReportMeaning | internal/controller/core/gitrepository_controller.go:231-290 | phase, reason and expiry of a target in every case |
| PassMeaning.EntryByRequest | internal/controller/core/gitrepository_controller.go:211-248 | each listed entry is pending, without expiry, exactly unless the stored request had been granted |
| PassMeaning.LoopTokens | internal/propagate/propagate.go:73-76 | every token of a pass is GitHub's answer for one of its targets, with the expiry it reported |
| PassMeaning.RecordedMints | internal/controller/core/gitrepository_controller.go:205-213 | each is minted under the installation of the App referred to |
| Names.LocalNameDecodes | internal/mcpaccess/resolver.go:274-276 | splitting at the first "--" three times recovers all four parts exactly if the first three hold no "--" and do not end in "-" |
| Names.LocalNameSeparatesOnePart | internal/mcpaccess/resolver.go:274-276 | with any three parts fixed the name is injective in the fourth, without hypothesis |
| Names.SlashKeyInjective | internal/controller/core/gitrepository_controller.go:394-396 | joined keys are injective for namespaces without "/" |
| McpAccess.ResolveNames | internal/mcpaccess/resolver.go:235-270 | the loop with its seen-map computes the deduplicated candidates, or fails if a listing does |
| McpAccess.ResolvedNames | internal/mcpaccess/resolver.go:235-270 | no repetitions, and exactly the union of explicit names and label matches over ControlPlane entries |
| McpAccess.WantedMeaning | internal/mcpaccess/resolver.go:248-267 | in terms of kind, namespace, name and label pairs: what each entry wants |
| McpAccess.ListingMeaning | internal/mcpaccess/resolver.go:258-264 | names fail exactly if a listing fails, which is made for each ControlPlane entry without a name |
| McpAccess.DedupOrder | internal/mcpaccess/resolver.go:239-246 | in order of first occurrence |
| McpAccess.EntriesInOrder | internal/mcpaccess/resolver.go:248-268 | references come entry by entry |
| McpAccess.ListingInOrder | internal/mcpaccess/resolver.go:265-267 | and within an entry in the order of the listing |
| McpAccess.DedupAgrees | internal/mcpaccess/resolver.go:239-246 | deduplicating by joined string equals deduplicating by pair exactly if no two references share a joined string |
| McpAccess.ListedMeaning | internal/mcpaccess/resolver.go:258-267 | a listing contributes exactly the names of the control planes in the entry's namespace, or in any, that carry all its label pairs, under the namespace the entry gives |
| StatusList.UpdatedForm | internal/controller/core/gitrepository_controller.go:399-419 | upserting all results and filtering gives the survivors in their old order, each replaced by its own result, then the newcomers in target order |
| StatusList.UpdatedIsMap | internal/controller/core/gitrepository_controller.go:399-419 | unique keys, exactly the results |
| ReconcilePasses.StatusListIsMap | internal/controller/core/gitrepository_controller.go:205-227 | both for a whole pass: the stored list has one entry for exactly each wanted control plane |
| StatusList.StatusHolder.SetPropagateStatus | internal/controller/core/gitrepository_controller.go:399-408 | the in-place upsert equals the specification |
| StatusList.StatusHolder.FilterPropagateStatus | internal/controller/core/gitrepository_controller.go:411-419 | the filter loop equals the specification |
| Convergence.PassesConverge | internal/controller/core/gitrepository_controller.go:114-290 | with clock and environment frozen and no API errors, the second pass mints nothing, makes no write in any MCP and no change to any AccessRequest, and only confirms the status; the third and every later one changes nothing at all |
| Convergence.SecondVisitDue | internal/propagate/propagate.go:125-153 | right after a written token another rotation is due exactly if the expiry cut to the second is within the buffer |
| Convergence.LoopConfirmed | internal/controller/core/gitrepository_controller.go:231-290 | the second report on a target repeats the first, except that a new expiry is cut to the second and a Conflict becomes Ready |
| Convergence.ConflictReportedAgain | internal/controller/core/gitrepository_controller.go:259-281 | after a Conflict, a later visit at any time and with any calls after its rotation read says Conflict again exactly if the token written is due, cut to the second, and the calls up to the Flux object succeed, and Ready exactly if it is not due; the Flux object is someone else's all along |
| ReadyStatus.ReadyExactly | internal/controller/core/gitrepository_controller.go:259-288 | a visit that knows whether to rotate says Ready exactly if the token is not due, or was replaced and the Flux object put in place; then Flux finds the new token under the wanted source, and otherwise nothing was written |
| ReadyStatus.NoWritesUntilDue | internal/controller/core/gitrepository_controller.go:259-265 | until the stored expiry is due, no number of visits writes anything, whatever sources they want and whatever their calls, and each says Ready |
| ReadyStatus.FluxFailureHidden | internal/controller/core/gitrepository_controller.go:259-281 | after a visit that replaced the token but could not write a Flux object that is missing, every visit until the new expiry is due says Ready while there is no Flux object |
| Convergence.ResolveSettles | internal/mcpaccess/resolver.go:146-175 | resolving again changes no request and gives the same targets |
| Deletion.FinalizerGoesExactly | internal/controller/core/gitrepository_controller.go:293-333 | the finalizer goes exactly if targets resolve, every turn's request deletion and MCP cleanup succeeds and the update takes effect; otherwise the onboarding cluster is untouched |
| Deletion.ErrorFree | internal/controller/core/gitrepository_controller.go:307-327 | no error is counted exactly if every request is deleted and every MCP cleanup succeeds |
| Deletion.DeletionLeaves | internal/controller/core/gitrepository_controller.go:293-333 | a pass that removes the finalizer leaves no request of its targets and all others as they were, and in each MCP exactly those owned objects that no target with access there could read; unowned MCP objects never change, errors or not |
| Deletion.SurvivesExactly | internal/controller/core/gitrepository_controller.go:293-333 | by the stored requests: an owned object survives that pass exactly if no wanted control plane whose request grants access to its MCP could read it |
| Deletion.PairSurvivesExactly | internal/controller/core/gitrepository_controller.go:293-333 | pair by pair: it survives exactly if the request was not granted or the read failed |
| DeletionRuns.RunLeavesExactly | internal/controller/core/gitrepository_controller.go:293-333 | over any number of deletion passes, with grants and denials in between: an owned Flux object, and likewise an owned Secret, is left exactly if no pass took it away, which a pass does only while the request is granted and all targets resolve |
| DeletionRuns.PassLeavesExactly | internal/controller/core/gitrepository_controller.go:293-333 | one pass, failed or not: what it leaves of the two objects in the MCP of a control plane, call by call |
| DeletionRuns.GrantLasts | internal/mcpaccess/resolver.go:209-224 | with nobody else in between, access lasts exactly until the first pass that reaches the request's deletion and does not lose it |
| DeletionRuns.TwoPassesLeakExactly | internal/controller/core/gitrepository_controller.go:293-333 | if one pass keeps the finalizer and the next removes it and can read, an owned Flux object or Secret is leaked exactly if its request was not granted, or the first pass took away the request but not the object |
| Deletion.CleaningRequests | internal/mcpaccess/resolver.go:209-224 | a request survives the deletion loop exactly if every deletion of it is lost |
| Deletion.OtherRequestsUntouched | internal/mcpaccess/resolver.go:209-224 | another GitRepository's requests survive every deletion pass |
| Deletion.RemoveEffect | internal/propagate/propagate.go:93-118 | for every outcome of its calls: which owned objects a cleanup leaves, and that it reports an error exactly if a deletion it makes fails |
| DeletionRuns.FailedCleanupLeaks | internal/controller/core/gitrepository_controller.go:307-316 | if a pass deletes its requests but fails in an MCP, the next one, with every call succeeding, lets the object go and leaves all MCPs as they are |
| DeletionRuns.OneTargetLeaks | internal/controller/core/gitrepository_controller.go:307-316 | with one granted target whose first cleanup reports an error, a second pass without any failure lets the GitRepository go and its MCP stays as the first cleanup left it |
| DeletionRuns.LeakHappens | internal/controller/core/gitrepository_controller.go:307-316 | for every GitRepository, control plane and MCP contents with both objects owned: a lost Flux deletion leaves both, a lost Secret deletion leaves the token alone, after a second pass without any failure |
| DeletionRuns.DeletableExactly | internal/controller/core/gitrepository_controller.go:293-333 | some sequence of passes removes the finalizer if and only if every wanted control plane has a cluster and was not denied |
| DeletionRuns.AnsweredPassDeletesExactly | internal/controller/core/gitrepository_controller.go:293-333 | one pass with every call succeeding removes it exactly in that case |
| DeletionRuns.BarredNeverDeleted | internal/mcpaccess/resolver.go:108-132 | while one control plane is denied or has no cluster, no number of passes with whatever calls changes the object or anything in an MCP |
| ReconcilePasses.MintsNameInstalledApp | internal/controller/core/gitrepository_controller.go:338-367 | every token of a pass is minted with the non-zero ID of the referenced App, shown as installed |
| ReconcilePasses.MintsCarryCurrentID | internal/controller/github/appinstallation_controller.go:121-187 | and that ID is the one GitHub gave in the last persisted AppInstallation pass |
| AppInstallations.InstalledMeansCurrentID | internal/controller/github/appinstallation_controller.go:93-198 | in every reachable state AppInstalled=True iff the last persisted pass got an answer, and it was the stored ID |
| AppInstallations.StoredID | internal/controller/github/appinstallation_controller.go:145-173 | after a pass the ID is GitHub's answer, 0 if not installed, and the old one without an answer |
| AppInstallations.ShownConditions | internal/controller/github/appinstallation_controller.go:121-198 | status, reason and generation of both conditions for every finding |
| AppInstallations.AppInstallation.Reconcile | internal/controller/github/appinstallation_controller.go:121-174 | the in-place state machine equals its specification |
| GitHubInstances.InstanceReconciler.Reconcile | internal/controller/github/githubinstance_controller.go:67-118 | a whole pass over the stored instances: fetch, verdict, status patch with every outcome, and what is returned |
| GitHubInstances.VerdictMeaning | internal/controller/github/githubinstance_controller.go:80-101 | Ready iff every reference loads; otherwise the complaint about the first failing one in list order |
| GitHubInstances.VerdictByCause | internal/controller/github/githubinstance_controller.go:80-101 | status and reason by what the reads find at the first reference that does not load |
| GitHubInstances.CheckedMeaning | internal/controller/github/githubinstance_controller.go:103-110 | what is stored: the verdict at the generation looked at, all else as before |
| GitHubInstances.ShownReadyExactly | internal/controller/github/githubinstance_controller.go:67-118 | over all histories of persisted and lost passes, Ready=True is stored exactly if all references loaded in the last persisted pass, and then credentials resolve for every listed name on what that pass saw |
| GitHubInstances.ReadyResolves | internal/credentials/resolve.go:34-79 | a ready instance resolves for every listed name, and for the empty name if there is one reference |
| GitHubInstances.ReadyExactly | internal/credentials/resolve.go:34-100 | where names are not repeated, ready iff every listed name resolves |
| Credentials.FirstNamedIsFirst | internal/credentials/resolve.go:73-78 | selection takes the first match and fails iff there is none |
| Credentials.LoadMeaning | internal/credentials/resolve.go:48-100 | credentials are the three values of the Secret named, in its namespace or the default one; otherwise the first thing missing |
| Credentials.ResolveMeaning | internal/credentials/resolve.go:34-79 | the Secret is the first one of the name, or the only one without a name |
| GitRepositoryReconciler.Reconciler.Reconcile | internal/controller/core/gitrepository_controller.go:114-179 | one pass over all stores: onboarding object, requests, MCPs with every write in order, minted tokens and result equal the specification |
| GitRepositoryReconciler.Reconciler.ReconcilePropagate | internal/controller/core/gitrepository_controller.go:184-227 | targets before credentials, then the loop with the status list and the fold |
| GitRepositoryReconciler.Reconciler.ReconcileTarget | internal/controller/core/gitrepository_controller.go:231-290 | one target: pending, no cluster, fresh, or synchronised |
| GitRepositoryReconciler.Reconciler.ReconcileDelete | internal/controller/core/gitrepository_controller.go:293-333 | the deletion loop and its error count |
| Propagate.Reconcile | internal/propagate/propagate.go:61-89 | mint, Secret, Flux object, call by call: result, MCP contents, order of writes and minted tokens |
| Propagate.Cleanup | internal/propagate/propagate.go:93-118 | Flux object, then Secret, call by call |
| AccessRequests.Resolve | internal/mcpaccess/resolver.go:85-100 | target by target until the first error |

## Left out

- githubapp: HTTP, JWTs and transport; minting and the installation check are answers given to the model.
- clusterFromAccessRequest: kubeconfig parsing; a granted request yields a handle to the cluster it names, or an error.
- StableRequestNameFromLocalName and StableMCPNamespace: functions given as parameters; theorems that need them injective say so.
- strconv.ParseInt: a partial function given as a parameter.
- IsPending of a request's status: a newly created AccessRequest counts as pending; the phase is one of three.
- Concurrent writers between a Get and the following write of one object, and optimistic-locking failures beyond a lost write.
- A stale cache: reads see the current contents; the status patch is computed against what the pass read and replaces the status whole.
- Time passing within a pass: the clock is read once.
- Writes to the platform cluster are seen by what they change: requests are only created where absent and never updated, so equal contents mean that no write of a propagating pass took effect.
- A process that dies inside a pass is an event for the MCPs only (SystemRuns); what it leaves in the other stores is a change by others.
- Finalizers and conditions as lists: a set and a map by type; LastTransitionTime, messages and LastChecked are left out.
- Storing the status cuts its times to the second; the model's list keeps them as reported.
- Leniencies of time.Parse such as one-digit hours: such texts are never written by the service.
- Targets dropped from propagateTo: removed from the status and never cleaned up in their MCPs, as in the code; no theorem claims otherwise.
- The watch on AppInstallations and its mapping to GitRepositories: it only triggers passes, and the theorems hold for passes at any time.
- The kustomization controller: copies fields and mirrors conditions.
- Logging, RBAC rule contents, CRDs, flags and wiring.
