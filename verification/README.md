# Proofs about an SRE agent, its release gate and its benchmark harness

This project models the parts of the repository where state, failure and arithmetic meet, and proves what those parts promise, for all inputs and all runs. `dafny verify dfyconfig.toml` checks the whole of it.

| module | what it models |
|---|---|
| `FaultInjection` | applying fault contracts to remote services one at a time, any request failing before, during or after taking effect, and unwinding in reverse |
| `ActGate`, `LiveRequests` | gating a remediation plan, building live requests from it, and the notifications sent ahead of an approval |
| `EvidenceLedger` | the measured values behind a severity decision and the links that say where they came from |
| `AlertSource`, `AlertLifecycle`, `AlertStore` | classifying an alert from a rule snapshot, the missed-clear protocol of one incident, and the store it runs on over many passes |
| `Wilson`, `Trials`, `ReleaseGate`, `Comparability`, `GateReasons`, `PassAtK`, `RootTraces` | score intervals, the paired comparison, the policy check, pass@k and pass^k, and the matching of trials with traces |
| `ReferenceScanner`, `ReferenceValues`, `ReferenceParser`, `EvidenceLocator` | the bracket and quote scanner restarted at each comma, the parser on it, and the locatable verdict |
| `IncidentDedup` | check-then-create under transaction-scoped locks, any number of processes, any interleaving |
| `RecoveryOracle`, `PollLoop` | the recovery tracker and the benchmark's poll loop around it |
| `RateLimit`, `Reachability` | the sliding-window limiter and the import-graph worklist |
| `Results`, `RealArith`, `Text` | shared helpers |

Code that updates things in place is modelled by classes and loops proved against functions of the old state; code made of expressions by functions. The network, the database, the clock and other processes are nondeterministic choices, function parameters or steps of a state machine.

## Where the code and its own words part

Each of these is proved, with the exact condition under which the promise does or does not hold.

- The policy check says it refuses a policy "no honest evaluation could ever satisfy" (`evals/benchmarks/release_gate.py:58-67`). It never refuses such a policy, because there is none: every policy within the loader's bounds is satisfied by some data of every size from 800 pairs up (`EveryPolicySatisfiable`). Some data of exactly n pairs satisfy a policy if and only if n meets two inequalities (`SatisfiableIff`), and the check refuses some policies that data of the minimum size satisfy, exactly those of `RefusedSatisfiableIff`, for example twenty pairs with margin 0.05 and width 0.4 (`RefusedYetSatisfiable`). What it does decide is whether two flawless arms of the minimum size pass (`AcceptedIsExact`).
- Undoing a fault injection restores every world it can succeed in exactly if and only if no setting is first touched by a contract that declares it null, because a missing key also reads as null (`NullBaselinesExact`). Otherwise every service still reads as before, but a key may have appeared.
- Incident deduplication holds for a title if and only if the bind is Postgres, every creator of that title takes the lock, and no re-take and no reopening is blind (`DedupExact`). Two creators look and create without the lock (`src/sre_agent/api/v1/incidents.py:47-53`, `src/sre_agent/agent_runtime.py:2515-2536`; `UnlockedViolates`). The webhook's failed-fold path commits, loses its lock, takes it again and creates without a second lookup (`src/sre_agent/api/v1/alerts.py:1158-1189`; `RetakeViolates`); a re-take can lead to a second active incident exactly when there is one already (`RetakeExact`). A person's reopening sets the status without looking (`src/sre_agent/agent_runtime.py:1536-1550`; `ReopenViolates`).
- A confirmed clear goes to whatever the title of its alert identity finds. That is always the examined incident if and only if the incident is open, its own title is that title, and every other open incident with it is strictly older (`LookupFindsSelf`); so a duplicate can be closed on its twin's evidence. The two titles differ exactly for an empty service label or a name with blanks around it (`TitlesAgree`): the webhook opens "[] X", the clear looks up "[unknown] X", and the incident is never found by its own clear (`EmptyServiceLost`).
- An action without a parameter dictionary is reported in the cluster's namespace, but its live request names none (`RequestsContained`).
- Resuming "must not page on-call twice" (`src/sre_agent/act_phase.py:1018-1019`). No index is sent twice; a notification is sent twice if and only if the plan itself repeats it, because the already-notified skip precedes the record of seen mutations (`SentTwiceIff`, `RepeatedEscalation`).
- After a clear over a failed remediation or behind a crash the incident stays open, yet no later pass looks at it, however often its alert fires or clears; nor does one look at an incident that a person reopens after a resolved alert closed it (`ClearedYetOpen`, `NeverLookedAtAgain`).
- An incident pending acknowledgment is reported as matched and gets a resolved event although the decision did not match it (`MatchedWithoutDecision`).
- The limiter raises an index error on every call if and only if its maximum is not positive (`RateLimit.Limiter.Limit`).

One difference is only of words: `cleanup` says that it reports the first failure (`evals/benchmarks/fault_adapter.py:218`), the code reports all of them, and the model follows the code.

## Assumptions

- Floats are reals, and `math.sqrt` is any function that returns the non-negative root. The quantile is positive.
- The comparison, the gate and the ablation verdict are proved for every interval function with the properties that `Wilson.WilsonScores` proves of the code's, for any such root; `ReleaseGate.CodeGate` applies them to it.
- A POST may apply any subset of its keys and fail afterwards, an echo is truthful, and nobody else writes the services in the meantime.
- Each database lookup sees the rows committed before it runs.
- The policy returns one decision for each action, so reports and actions are aligned (`src/sre_agent/act_phase.py:720-841`). Whether parameters name a resource limit or an environment change is a predicate the model takes as given.
- One incident's turn in a pass is atomic, and every stored event has a time (`src/backend/models.py:415`).
- Normalised argument equality, the evidence contract's name and value coercion, lock keys and digests are arbitrary functions.
- One limiter owns each key of the shared log, and time does not step back.

## Model

| member | source | states |
|---|---|---|
| FaultInjection.Services.Post | evals/benchmarks/fault_adapter.py:147-151 | a write may apply any of its keys, answered or not, and changes nothing else; an answer echoes the resulting config; a write that is unanswered or partial is recorded as trouble, and without trouble it is answered and complete |
| FaultInjection.MeridianAdminConfigAdapter.Contracts | evals/benchmarks/fault_adapter.py:95-138 | a declaration is accepted, unchanged, exactly when it is non-empty, every contract is valid and no target repeats |
| FaultInjection.MeridianAdminConfigAdapter.Restore | evals/benchmarks/fault_adapter.py:140-153 | a confirmed restore leaves the old world with the original values written over it; a failed one changed only declared settings; without trouble it succeeds |
| FaultInjection.MeridianAdminConfigAdapter.ApplyOrUndo | evals/benchmarks/fault_adapter.py:164-182 | the write took full effect and can be undone, or nothing changed, or the error says that cleanup failed too |
| FaultInjection.MeridianAdminConfigAdapter.InjectOne | evals/benchmarks/fault_adapter.py:155-192 | the same for one contract with its baseline check; the lease it returns restores the world before it; no setting appears unless a null baseline holds for a missing key; without trouble it succeeds exactly when the baseline holds |
| FaultInjection.MeridianAdminConfigAdapter.Cleanup | evals/benchmarks/fault_adapter.py:215-232 | success means all leases unwound, last first; a failure names only targets of leases whose endpoint met trouble, so that without trouble there is none, and every lease not named has the settings it alone restores back in place |
| FaultInjection.MeridianAdminConfigAdapter.CleanupTwice | evals/benchmarks/fault_adapter.py:215-232 | a second cleanup completes a first one that failed; without trouble it succeeds |
| FaultInjection.MeridianAdminConfigAdapter.UnwindEarlier | evals/benchmarks/fault_adapter.py:202-212 | after a failed contract the earlier ones are unwound: the world is the initial one, or the error says a cleanup failed; without further trouble the error is the contract's own |
| FaultInjection.MeridianAdminConfigAdapter.Abort | evals/benchmarks/fault_adapter.py:202-212 | the same for contract i of a declaration, with only declared settings changed |
| FaultInjection.MeridianAdminConfigAdapter.Inject | evals/benchmarks/fault_adapter.py:194-213 | all or reported: one lease for every contract with all of them applied, or every service as it was, or an error that says cleanup failed; only declared settings can ever differ; a validation error exactly for an invalid declaration; without trouble a valid declaration succeeds exactly when every baseline holds in its turn |
| FaultInjection.MeridianAdminConfigAdapter.InjectThenCleanup | evals/benchmarks/fault_adapter.py:194-232 | once a cleanup succeeds, even at the second attempt, every service reads as before, and is exactly as before when no setting is first touched by a contract that declares it null; without trouble it succeeds exactly for a valid declaration whose baselines hold |
| FaultInjection.UnwindForgets | evals/benchmarks/fault_adapter.py:221-230 | unwinding two worlds that differ only in leased settings gives worlds that agree, also when leases share a service |
| FaultInjection.RestoreUndoes | evals/benchmarks/fault_adapter.py:161-182 | whatever part of an injection took effect, writing the verified baseline back undoes it |
| FaultInjection.LeaseAdded | evals/benchmarks/fault_adapter.py:199-201 | a lease that restores the world before it extends the unwinding of the earlier leases |
| FaultInjection.ProgressStep | evals/benchmarks/fault_adapter.py:199-201 | one more applied contract keeps the injection loop's invariant |
| FaultInjection.RoundTripIs | evals/benchmarks/fault_adapter.py:194-230 | applying every contract and unwinding every lease writes, for each touched setting, the baseline of the first contract that touches it |
| FaultInjection.Shelters | evals/benchmarks/fault_adapter.py:161-162 | before each contract of such a declaration a baseline that holds names existing settings only |
| FaultInjection.NullBaselinesExact | evals/benchmarks/fault_adapter.py:155-232 | undoing a whole injection gives back every world it can succeed in if and only if no setting is first touched by a contract that declares it null |
| ActGate.GateOne | src/sre_agent/act_phase.py:737-808 | one action's parameters gain the cluster's namespace when they name none, and its report is the gate's verdict on the action as left behind |
| ActGate.BuildActReport | src/sre_agent/act_phase.py:720-841 | one report for each action in order through all four append paths, the plan scoped in place even when actions share a dictionary, and the final aggregate |
| ActGate.GateContains | src/sre_agent/act_phase.py:738-808 | a report is unblocked if and only if the policy did not block the action and the action, as left behind, is not outside the cluster's namespace, has a live tool if it is an executor action, and is not an unfit remedy; an unblocked report names the cluster's namespace, the action itself exactly when it has a parameter dictionary |
| ActGate.AggregateMeans | src/sre_agent/act_phase.py:828-841 | exactly when the final aggregate is blocked, asks for approval or is autonomous; it stays autonomous even when every autonomous action was blocked |
| ActGate.ScopedAgain | src/sre_agent/act_phase.py:738-747 | scoping never moves an action out of or into scope, and a scoped action names the cluster's namespace |
| ActGate.ScopedKeeps | src/sre_agent/act_phase.py:738-747 | scoping changes nothing but a blank namespace, which becomes the cluster's |
| ActGate.GateCauses | src/sre_agent/act_phase.py:737-808 | each report has the cause, decision and namespace that the action's own fields call for: another namespace, a config intent with nothing to change, a remedy that cannot fix the fault, or the policy's decision |
| LiveRequests.BuildLiveActionRequests | src/sre_agent/act_phase.py:1018-1125 | the requests are exactly the allowed, not yet notified actions that no earlier such action duplicates, in increasing order of index; an executor action under a named service targets that service, every other keeps its own target |
| LiveRequests.MutationsDistinct | src/sre_agent/act_phase.py:1087-1099 | no two requests are the same mutation |
| LiveRequests.EligibleRepresented | src/sre_agent/act_phase.py:1026-1099 | every autonomous action, and every held one once approved, that is no delivered notification is represented by its first such occurrence |
| LiveRequests.OneForService | src/sre_agent/act_phase.py:1058-1099 | of two executor actions of equal type and parameters under a named service only the first is requested, whatever their targets |
| LiveRequests.ApprovalEnlarges | src/sre_agent/act_phase.py:1027-1031 | every mutation requested without approval is also requested with it |
| LiveRequests.RequestsContained | src/sre_agent/act_phase.py:1026-1124 | every live request, approved or not, comes from an unblocked action the gate left contained, carries its type and parameters, is aimed as it should be, is no remedy that cannot fix the fault, and names the cluster's namespace exactly when the action has a parameter dictionary |
| LiveRequests.ActAndBuild | src/sre_agent/act_phase.py:657-1125 | gate and builder run one after the other on shared dictionaries: every request is of a contained action, and names the cluster's namespace exactly when the action has a dictionary |
| LiveRequests.DeliverAheadOfApproval | src/sre_agent/act_phase.py:1128-1155 | exactly the notify-only requests of the unapproved plan are tried, in order, and the delivered ones are those that succeeded |
| LiveRequests.NoIndexTwice | src/sre_agent/act_phase.py:1018-1036 | the approved run never requests a delivered index |
| LiveRequests.SentTwiceIff | src/sre_agent/act_phase.py:1032-1099 | a delivered notification is sent again if and only if the plan repeats it in another action that approval leaves eligible |
| LiveRequests.NotifyThenResume | src/sre_agent/graph_builder.py:292-308 | delivery, then approved run: no index twice, and no notification twice unless the plan repeats one |
| LiveRequests.RepeatedEscalation | src/sre_agent/act_phase.py:1018-1036 | two identical escalations: the second goes out after the approval although the first was delivered |
| EvidenceLedger.RemoveKnown | src/sre_agent/act_phase.py:355-366 | removing the first known link by value removes that very link and nothing else |
| EvidenceLedger.TracksAfterOne | src/sre_agent/act_phase.py:355-368 | replacing a metric's links and value together keeps every metric's links in agreement with its value |
| EvidenceLedger.Ledger.Supersede | src/sre_agent/act_phase.py:355-366 | the known links of one metric are gone, all others remain in order |
| EvidenceLedger.Ledger.Absorb | src/sre_agent/act_phase.py:333-368 | a source's usable findings replace earlier values together with their links, and agreement is kept |
| EvidenceLedger.Ledger.Close | src/sre_agent/act_phase.py:546-561 | each metric has exactly one known link with the value used, or none when unmeasured; existing links stay, a missing metric is marked, a label-only value is attributed to the alert |
| EvidenceLedger.AbsorbedIsLast | src/sre_agent/act_phase.py:348-368 | after a source, a metric holds that source's last usable finding, or what it held before |
| EvidenceLedger.HighestPrecedenceWins | src/sre_agent/act_phase.py:515-544 | the value in use is that of the last absorbed source that supplied a usable one |
| EvidenceLedger.LabelsLast | src/sre_agent/act_phase.py:481-488 | it is the alert's own only when no source supplied one |
| EvidenceLedger.KnownAbsorbed | src/sre_agent/act_phase.py:355-368 | after a source is absorbed, a metric it supplied has one known link, of its last usable finding |
| EvidenceLedger.WinnerValue | src/sre_agent/act_phase.py:515-544 | the value in use is the winning link's, or the alert's own when no source supplied one |
| EvidenceLedger.WinnerMeans | src/sre_agent/act_phase.py:348-368 | the winning link gives the value and names the source and path of the last finding, in the last source, that supplies the metric; there is none when no finding does |
| EvidenceLedger.Extract | src/sre_agent/act_phase.py:488-561 | labels, every source, closing loop: the value in use is that of the last source that supplied one and the one known link names that source and the path of its finding; else both are the alert's own; else one affected service when the alert names one; else nothing |
| AlertSource.MatchingRules | src/sre_agent/alert_lifecycle_reconciler.py:166-170 | the rules with the alert's name, in order |
| AlertSource.ReadRule | src/sre_agent/alert_lifecycle_reconciler.py:179-203 | reading a rule stops at its first matching or malformed instance, and passes only if it has neither |
| AlertSource.ObserveAlertSource | src/sre_agent/alert_lifecycle_reconciler.py:159-204 | the classification: the first instance over all matching rules that is not passed over decides |
| AlertSource.ClearMeans | src/sre_agent/alert_lifecycle_reconciler.py:159-204 | clear if and only if the snapshot arrived, a rule of that name exists, all such rules are healthy and none has a matching or malformed instance |
| AlertSource.FiringMeans | src/sre_agent/alert_lifecycle_reconciler.py:171-203 | firing if and only if the snapshot arrived, all rules of that name are healthy, and in reading order an instance of the service comes before anything malformed |
| AlertSource.UnavailableMeans | src/sre_agent/alert_lifecycle_reconciler.py:159-204 | unavailable in all other cases |
| AlertStore.FindActive | src/backend/crud.py:520-543 | the newest open incident of the cluster with the title, or none |
| AlertStore.SnapshotOf | src/sre_agent/alert_lifecycle_reconciler.py:346-348 | a cluster's snapshot is loaded at most once in a pass |
| AlertStore.LoadCandidates | src/sre_agent/alert_lifecycle_reconciler.py:213-236 | exactly the incidents with a candidate status and a Prometheus cluster, each once, oldest first |
| AlertStore.Store.Observe | src/sre_agent/alert_lifecycle_reconciler.py:348-385 | a candidate's turn up to a confirmed clear, and whether it comes to one |
| AlertStore.Store.ApplyResolved | src/sre_agent/api/v1/alerts.py:836-979 | a resolved alert changes the incident its title lookup returns and no other: it becomes resolved exactly if it was resolvable, no crash explains the clear and no other writer was faster, and is noted otherwise |
| AlertStore.Store.Examine | src/sre_agent/alert_lifecycle_reconciler.py:339-405 | one candidate is one step of the store, on its cluster's snapshot |
| AlertStore.Store.Pass | src/sre_agent/alert_lifecycle_reconciler.py:322-413 | a pass is one look for each incident that was a candidate at its start, oldest first, one load for each cluster it needs; each look has its result by what the snapshot shows, and the recovered list names exactly the candidates whose look reports them |
| AlertStore.LookMeans | src/sre_agent/alert_lifecycle_reconciler.py:339-405 | a look does nothing without an identity or after a resolution, records a first clear, waits for the grace interval, then applies the clear to the incident its title finds, records firing over a recorded clear, and changes nothing in doubt |
| AlertStore.RecoveredMeans | src/sre_agent/alert_lifecycle_reconciler.py:397-405 | a candidate is reported exactly when one of its looks reports it |
| AlertStore.LookupFindsSelf | src/backend/crud.py:520-543 | the lookup of a confirmed clear always returns the examined incident if and only if that is open, its title is the one looked up, and every other open incident with the title is strictly older |
| AlertStore.ClosesOwn | src/sre_agent/alert_lifecycle_reconciler.py:386-396 | under that condition a confirmed clear resolves or notes the examined incident, by its own fields, and changes no other |
| AlertLifecycle.TitlesAgree | src/sre_agent/api/v1/alerts.py:81-94 | the title an alert is opened under is the one its clear looks up if and only if its service label is not empty and its name has no blanks around it |
| AlertStore.EmptyServiceLost | src/sre_agent/alert_lifecycle_reconciler.py:110-116 | an incident opened for an empty service label is found by none of its own clears, which go to the alert of that name without the label, if that is open |
| AlertStore.HistorySplit | src/sre_agent/alert_lifecycle_reconciler.py:322-413 | a history can be cut anywhere |
| AlertStore.PassIsHistory | src/sre_agent/alert_lifecycle_reconciler.py:322-413 | a pass is a legal history of the store |
| AlertStore.Projects | src/sre_agent/alert_lifecycle_reconciler.py:322-413 | in every history of passes, webhooks, moves and openings, each incident goes through its own run, from the start or from its opening |
| AlertStore.StoreSafe | src/sre_agent/alert_lifecycle_reconciler.py:336-405 | in every history, from the empty store on, a clear is confirmed only on the evidence of an earlier look at that very incident since it was opened |
| AlertLifecycle.AbsenceOrigin | src/sre_agent/alert_lifecycle_reconciler.py:369-382 | pending absence evidence comes from an earlier pass that saw the alert clear, with nothing recorded since |
| AlertLifecycle.MissedClearSafe | src/sre_agent/alert_lifecycle_reconciler.py:336-405 | in every run a clear is confirmed only by a snapshot that arrived, has rules for the alert, all healthy, and shows no matching instance, and only on an earlier such snapshot recorded at least the grace interval before, with no firing seen and nothing recorded in between; about the same alert unless a move changed it |
| AlertLifecycle.AlternatesAlways | src/sre_agent/alert_lifecycle_reconciler.py:355-384 | in every run the source events are absence, firing, absence and so on in strict alternation, and then resolutions only |
| AlertLifecycle.ClearedYetOpen | src/sre_agent/alert_resolution.py:61-115 | a clear over a failed remediation or behind a crash leaves the status as it is and a resolution as the latest event |
| AlertLifecycle.ReconcileMeans | src/sre_agent/alert_resolution.py:61-115 | after a resolved alert an incident is resolved exactly if it was, or was resolvable without a crash and without losing the race; otherwise its status stays, and it is reported and noted unless resolved before or lost |
| AlertLifecycle.TwoClearLooksResolve | src/sre_agent/alert_lifecycle_reconciler.py:369-405 | two passes that see the alert clear, far enough apart, resolve an incident that its own clear finds |
| AlertLifecycle.FiringDiscards | src/sre_agent/alert_lifecycle_reconciler.py:355-366 | firing over a recorded clear is recorded |
| AlertLifecycle.NeverLookedAtAgain | src/sre_agent/alert_lifecycle_reconciler.py:342-344 | after a resolution no pass ever looks at the incident or changes it, whatever happens to it; without another resolved alert its timeline stays |
| Wilson.WilsonRoots | evals/benchmarks/statistical_eval.py:418-431 | both bounds solve (p - x)^2 = z^2 x (1 - x) / n, the clamps never bite, and p lies inside, on a bound only at 0 or 1 |
| Wilson.WilsonMonotone | evals/benchmarks/statistical_eval.py:418-431 | more successes of the same total raise both bounds strictly |
| Wilson.WilsonWidth | evals/benchmarks/statistical_eval.py:418-431 | no sample of n is narrower than z^2 / (n + z^2), and exactly all or no successes attain it |
| Wilson.WilsonFlawless | evals/benchmarks/release_gate.py:43-50 | n successes of n give [n / (n + z^2), 1] |
| Wilson.WilsonHopeless | evals/benchmarks/statistical_eval.py:418-431 | no successes of n give [0, z^2 / (n + z^2)] |
| Wilson.WilsonRefuses | evals/benchmarks/statistical_eval.py:418-422 | impossible counts, and only those, are refused |
| Wilson.WilsonScores | evals/benchmarks/statistical_eval.py:418-431 | the code's interval, as a function of the counts, has bounds in [0, 1] that rise strictly with the successes, and its least width exactly at none and all of them |
| Wilson.VerdictSound | evals/benchmarks/ablation_eval.py:210-217 | demonstrated means the full stack had strictly more successes, refuted strictly fewer |
| Wilson.VerdictAntisymmetric | evals/benchmarks/statistical_eval.py:611-618 | swapping the arms swaps demonstrated and refuted |
| Wilson.VerdictDecided | evals/benchmarks/ablation_eval.py:213-217 | demonstrated if and only if the full stack's interval lies above the arm's, refuted if and only if below |
| Wilson.VerdictMonotone | evals/benchmarks/ablation_eval.py:213-217 | more successes of the full stack, or fewer of the arm, never undo a demonstration |
| Wilson.VerdictReach | evals/benchmarks/ablation_eval.py:213-217 | always against never is demonstrated if and only if n > z^2, and with no more trials nothing ever is |
| Trials.LoadTrials | evals/benchmarks/statistical_eval.py:380-407 | rows are accepted, unchanged, exactly when there is one and no two share an identity |
| ReleaseGate.PairUp | evals/benchmarks/statistical_eval.py:669-674 | each arm maps a pair to the last trial of that candidate in it |
| ReleaseGate.PairingLossless | evals/benchmarks/statistical_eval.py:397-402 | after the loader's identity check pairing overwrites nothing: every selected trial is its pair's entry |
| ReleaseGate.CompareCandidates | evals/benchmarks/statistical_eval.py:622-853 | an error exactly for out-of-range parameters or trials that are not comparable; otherwise the pair count and the reasons |
| Comparability.ComparableMeans | evals/benchmarks/statistical_eval.py:647-700 | loaded trials are comparable exactly when the candidates differ, share one experiment, have one configuration each and not the same, and every trial of either has a mate of equal pair, scenario, version, dataset and risk class |
| GateReasons.SuccessesMean | evals/benchmarks/statistical_eval.py:598-619 | a recovery is resolved and not falsely so, a quality success is also fully graded and safe |
| GateReasons.ReasonsMean | evals/benchmarks/statistical_eval.py:790-815 | each reason is listed exactly for its own cause, by the two samples' bounds and the fields of the trials |
| GateReasons.MarginsMean | evals/benchmarks/release_gate.py:569-599 | the gate reads intervals within [-1, 1] and gives its two reasons each for its own metric and margin |
| ReleaseGate.TrialReasonsEmpty | evals/benchmarks/statistical_eval.py:803-815 | no trial reason exactly when every candidate trial is safe and graded, every trial of both arms traced and costed, and the risky pairs succeed at least as often on both metrics |
| ReleaseGate.StricterMarginCovers | evals/benchmarks/release_evidence.py:206-234 | the recomputed intervals are always usable, and a promotion under the stricter margin clears both of the policy's own margins |
| ReleaseGate.PassesIff | evals/benchmarks/release_gate.py:569-599 | evaluator and margins together pass exactly when trial reasons are absent, pairs suffice, and both intervals are narrow and above the stricter margin |
| ReleaseGate.RequireReachablePolicy | evals/benchmarks/release_gate.py:58-82 | the loop accepts exactly the policies with both margins and the width reachable |
| ReleaseGate.ReachablePairsExact | evals/benchmarks/release_gate.py:43-55 | n pairs are enough for a margin, by the code's count, if and only if two flawless arms of n clear it |
| ReleaseGate.NarrowestPossible | evals/benchmarks/release_gate.py:76-82 | no data of n pairs give an interval narrower than 2 z^2 / (n + z^2), and exactly all-or-nothing arms attain it |
| ReleaseGate.FlawlessVerdict | evals/benchmarks/statistical_eval.py:790-816 | for flawless arms the whole gate reduces to two inequalities on the number of pairs |
| ReleaseGate.AcceptedIff | evals/benchmarks/release_gate.py:68-82 | a policy is accepted exactly when its margins and width exceed what flawless arms of the minimum size give |
| ReleaseGate.AcceptedIsExact | evals/benchmarks/release_gate.py:58-82 | a policy is accepted if and only if flawless arms with exactly the minimum number of pairs pass evaluator and margins |
| ReleaseGate.AcceptedIsReachable | evals/benchmarks/release_gate.py:58-82 | flawless arms of any size from the minimum up pass every accepted policy |
| ReleaseGate.HighestPossible | evals/benchmarks/statistical_eval.py:611-618 | no data of n pairs give a lower bound above 1 - 2 z^2 / (n + z^2) |
| ReleaseGate.PassingIsLargeEnough | evals/benchmarks/release_gate.py:543-599 | whatever the data and their size, if they pass then their number meets two inequalities in width and stricter margin |
| ReleaseGate.RescueVerdict | evals/benchmarks/release_gate.py:58-82 | a candidate that rescues an always-failing baseline passes exactly when its number meets them |
| ReleaseGate.SatisfiableIff | evals/benchmarks/release_gate.py:58-82 | some data of exactly n pairs pass evaluator and margins if and only if n meets them |
| ReleaseGate.SatisfiableUpwards | evals/benchmarks/release_gate.py:543-546 | a policy satisfied at one size is satisfied at every larger one |
| ReleaseGate.EveryPolicySatisfiable | evals/benchmarks/release_gate.py:58-67 | every policy within the loader's bounds, refused or not, is satisfied at every size from its minimum and from 800 pairs up |
| ReleaseGate.WidthRefusalExact | evals/benchmarks/release_gate.py:76-82 | the width half refuses exactly the policies for which all data of the minimum size are too wide |
| ReleaseGate.RefusedSatisfiableIff | evals/benchmarks/release_gate.py:58-82 | accepted policies are satisfied by data of the minimum size, and so are exactly the refused ones given by three inequalities |
| ReleaseGate.RefusedYetSatisfiable | evals/benchmarks/release_gate.py:61-63 | such a policy: twenty pairs, margin 0.05, width 0.4 |
| ReleaseGate.CodeGate | evals/benchmarks/release_gate.py:58-82 | for the interval the code computes: data of n pairs can satisfy a policy exactly when n meets the two inequalities, and a policy is accepted exactly when flawless arms of the minimum size pass |
| ReleaseGate.CriticalNeverRegresses | evals/benchmarks/statistical_eval.py:812-815 | a candidate that always succeeds never regresses the risky slice |
| PassAtK.PassMeans | evals/benchmarks/statistical_eval.py:477-495 | pass^k is the share of k-element draws in which every trial succeeded, pass@k the share in which at least one did |
| PassAtK.DrawsCounted | evals/benchmarks/statistical_eval.py:486 | the binomial coefficient counts the draws |
| PassAtK.PassFormula | evals/benchmarks/statistical_eval.py:477-495 | the early returns agree with the binomial formula |
| PassAtK.PassLaws | evals/benchmarks/statistical_eval.py:477-495 | pass@k is one minus pass^k of the failures, both lie in [0, 1], and the success rate lies between them, meeting both at k = 1 |
| PassAtK.PassMonotoneInSuccesses | evals/benchmarks/statistical_eval.py:477-495 | both grow with the successes |
| PassAtK.PassMonotoneInK | evals/benchmarks/statistical_eval.py:477-495 | pass^k falls and pass@k rises with k |
| PassAtK.PassAbsent | evals/benchmarks/statistical_eval.py:477-495 | an estimate is refused exactly for a k that is not positive and absent exactly with fewer than k trials |
| RootTraces.TrialReasons | evals/benchmarks/release_evidence.py:313-364 | a trial gives each reason exactly for its own cause, and none exactly when its cited digest is indexed and the record agrees on identity, spans, artifact, completeness and cost up to tolerance |
| RootTraces.FirstOccurrences | evals/benchmarks/release_evidence.py:376 | the same reasons without repetition |
| RootTraces.VerifyRootTraces | evals/benchmarks/release_evidence.py:291-376 | the reasons are exactly those of the paired trials and the count of unclaimed traces, each once; there is none exactly when every paired trial resolves and no trace is unclaimed |
| RootTraces.PairedExactly | evals/benchmarks/release_evidence.py:310-312 | the paired trials are exactly the trials of either arm, each as often as it was loaded |
| RootTraces.CleanCounts | evals/benchmarks/release_evidence.py:304-375 | counting alone excludes digest collisions and unclaimed traces |
| RootTraces.AssignmentInjective | evals/benchmarks/statistical_eval.py:398-401 | two trials that share a trace would share an identity |
| RootTraces.AssignmentOnto | evals/benchmarks/release_evidence.py:365-375 | every trace is some trial's |
| RootTraces.EmptyMeansBijection | evals/benchmarks/release_evidence.py:291-376 | no reason if and only if digests are distinct and trials and traces correspond one to one, each pair agreeing |
| ReferenceScanner.Scan | evals/benchmarks/evidence_locator.py:93-117 | the index loop with its escape skip is the character-by-character scan |
| ReferenceScanner.ScanIsFirstStop | evals/benchmarks/evidence_locator.py:93-117 | the result is the first position where the one-pass state machine is at top level and reads a closer or a wanted comma, if that is a closing parenthesis or a comma, and otherwise -1 |
| ReferenceScanner.JoinSplit | evals/benchmarks/evidence_locator.py:120-129 | joining the parts of the one-pass split with commas rebuilds the text |
| ReferenceScanner.RestartedScan | evals/benchmarks/evidence_locator.py:120-129 | in enclosed text a scan restarted from an empty stack finds exactly the next top-level comma of the whole text |
| ReferenceScanner.SplitArgs | evals/benchmarks/evidence_locator.py:120-129 | on enclosed text the restarted loop gives the one-pass split, so nothing is lost and no top-level comma is missed |
| ReferenceValues.GroupBalanced | evals/benchmarks/evidence_locator.py:93-117 | a group in matching brackets is one value, whatever commas and groups are in it |
| ReferenceValues.QuoteBalanced | evals/benchmarks/evidence_locator.py:99-106 | quoted text is one value, whatever is in the quotes but the quote itself, unless escaped |
| ReferenceValues.NeutralAppend | evals/benchmarks/evidence_locator.py:93-117 | texts that close what they open can stand side by side |
| ReferenceValues.ClosersMean | evals/benchmarks/evidence_locator.py:109-116 | outside all groups a closer stops every scan and a comma the splitting one; inside a group a closer that does not match is passed |
| ReferenceParser.CollectArgs | evals/benchmarks/evidence_locator.py:144-151 | parts with an identifier key become arguments, later ones overriding; others are prose |
| ReferenceParser.CloseEncloses | evals/benchmarks/evidence_locator.py:139-143 | the text up to a found closing parenthesis is enclosed |
| ReferenceParser.ParseReference | evals/benchmarks/evidence_locator.py:132-152 | the two scans together give the call of the one-pass parse, or none |
| ReferenceParser.ParseMeans | evals/benchmarks/evidence_locator.py:132-152 | a reference is a call exactly when it opens with a tool, perhaps in blanks and backticks, and a parenthesis, and encloses text up to a closing one, whose parts give the arguments |
| ReferenceParser.ProseIgnored | evals/benchmarks/evidence_locator.py:135-151 | a part without an assignment to an identifier changes no argument, wherever it stands |
| ReferenceParser.RoundTrip | evals/benchmarks/evidence_locator.py:132-152 | printing a tool with identifier keys, trimmed and balanced values and balanced prose between them, and parsing it back, gives the same call, whatever prose follows |
| EvidenceLocator.SameToolArgs | evals/benchmarks/evidence_locator.py:221 | the arguments of exactly the calls to the tool |
| EvidenceLocator.CompareCalls | evals/benchmarks/evidence_locator.py:227-243 | located exactly when some call disagrees on nothing, textual exactly when none does and one disagrees on query text only |
| EvidenceLocator.CheckEntry | evals/benchmarks/evidence_locator.py:209-250 | unlocatable exactly when transcripts are complete and the tool is catalogued but was never called, or every call to it conflicts and none in query text only |
| EvidenceLocator.NamedMeans | evals/benchmarks/evidence_locator.py:188-193 | a name is the tool's exactly when it is the tool or ends in it after two underscores, a dot or a slash |
| EvidenceLocator.VerdictMeans | evals/benchmarks/evidence_locator.py:209-250 | located exactly when some call to the tool disagrees on no shared argument; unlocatable exactly when transcripts are complete and every call to it disagrees on more than query text or, with none, it is catalogued |
| EvidenceLocator.CheckCase | evals/benchmarks/evidence_locator.py:253-286 | a case fails exactly when an entry is unlocatable, and passes exactly when one is located and none unlocatable |
| EvidenceLocator.MoreCalls | evals/benchmarks/evidence_locator.py:209-250 | more recorded calls worsen a verdict exactly when the tool was neither called nor catalogued before and all new calls to it conflict |
| EvidenceLocator.IncompleteNeverFails | evals/benchmarks/evidence_locator.py:244-250 | incomplete transcripts never fail an entry, and change no other verdict |
| EvidenceLocator.FaithfulReferenceLocated | evals/benchmarks/evidence_locator.py:209-250 | a reference that prints a recorded call is located, whatever else was called |
| IncidentDedup.InvStep | src/backend/crud.py:470-498 | every step of a disciplined installation keeps uniqueness, lock ownership and the standing of lookups that found nothing |
| IncidentDedup.DedupSafe | src/backend/crud.py:447-543 | on Postgres, if every creator of a subject locks and no re-take or reopening is blind, no interleaving of any number of processes has two active incidents for it, even when lock keys collide |
| IncidentDedup.DedupExact | src/backend/crud.py:470-543 | some schedule gives a subject two active incidents if and only if the bind is not Postgres, a creator does not lock, a re-take is blind, or a reopening is blind |
| IncidentDedup.UnlockedViolates | src/sre_agent/api/v1/incidents.py:47-53 | two creators that look without the lock open two incidents, on Postgres too |
| IncidentDedup.RetakeViolates | src/sre_agent/api/v1/alerts.py:1158-1189 | with the lock, a failed fold next to an overlapping delivery opens two incidents |
| IncidentDedup.RetakeExact | src/sre_agent/api/v1/alerts.py:1178-1181 | an active incident at a re-take if and only if some disciplined continuation then has two |
| IncidentDedup.IdleHoldsNone | src/backend/crud.py:470-498 | in every run a lock belongs to a process at work under its key, so a subject's lock is free for an idle process unless another is at work under that key |
| IncidentDedup.ReopenViolates | src/sre_agent/agent_runtime.py:1536-1550 | with the lock, reopening a resolved incident after its successor was opened gives two |
| IncidentDedup.ClaimOnce | src/backend/crud.py:105-165 | at most one first-run claim creates an account, whatever the schedule |
| RecoveryOracle.RecoveryOracleTracker.Begin | evals/benchmarks/recovery_oracle.py:181-187 | the start moves exactly when the time is aware and no recovery observation was made |
| RecoveryOracle.RecoveryOracleTracker.EstablishBaseline | evals/benchmarks/recovery_oracle.py:189-220 | one baseline observation, exactly when there was none and the time is aware |
| RecoveryOracle.RecoveryOracleTracker.Observe | evals/benchmarks/recovery_oracle.py:222-271 | one observation, the counters stay functions of the log, and a recovery time once set never changes |
| RecoveryOracle.RecoveryOracleTracker.Conclude | evals/benchmarks/recovery_oracle.py:273-336 | each status exactly characterised by the log, the time to recovery being that of the first completing observation |
| RecoveryOracle.ReflectsStep | evals/benchmarks/recovery_oracle.py:222-271 | failure flag, pass counter and recovery time track the log's failure, passing suffix and first completion |
| RecoveryOracle.StreakMeans | evals/benchmarks/recovery_oracle.py:252-262 | the counter reaches the required number exactly at observations that end that many passes, all after a failure when arming is required |
| RecoveryOracle.FirstRecoveryMeans | evals/benchmarks/recovery_oracle.py:252-262 | the recovery time is that of the first completing observation, and absent when there is none |
| RecoveryOracle.FieldsMean | evals/benchmarks/recovery_oracle.py:273-336 | the tracker's fields say of its log whether the baseline was healthy, a failure was seen and a recovery completed, and when |
| RecoveryOracle.AfterMeans | evals/benchmarks/recovery_oracle.py:189-220 | the history of a log is what follows its baseline observation |
| RecoveryOracle.OperatorLaws | evals/benchmarks/recovery_oracle.py:82-85 | the five comparisons agree with each other and with the threshold |
| RecoveryOracle.ClassifyMeans | evals/benchmarks/recovery_oracle.py:222-262 | a failed query, or one without a finite value, is neither a pass nor a failure |
| PollLoop.GrantPendingApproval | evals/benchmarks/sre_bench.py:790-850 | a grant exactly for a readable, well-formed, new and accepted approval, and its hash is remembered |
| PollLoop.MaybeApprove | evals/benchmarks/sre_bench.py:893-899 | a grant only when approving is on, the incident waits and the limit is not reached |
| PollLoop.ObserveOracle | evals/benchmarks/sre_bench.py:734-753 | one observation is logged, and the loop may stop exactly on a completed recovery after a seen failure |
| PollLoop.CountGrace | evals/benchmarks/sre_bench.py:905-911 | the grace period is over exactly when the status was terminal without a grant at every poll through it |
| PollLoop.WaitForRecovery | evals/benchmarks/sre_bench.py:853-913 | for every environment the loop stops at the first poll that completes a recovery, ends the grace period or fails to fetch the incident, else at the timeout; polls stay below timeout over interval rounded up, and every grant follows the rule |
| PollLoop.RunBounds | evals/benchmarks/sre_bench.py:821-850 | a run grants at most the limit, each time for a hash of its own |
| PollLoop.Tarry | evals/benchmarks/sre_bench.py:893-911 | a grant restarts the countdown, and the loop goes on exactly while the grace period is not over |
| PollLoop.JudgeRecovered | evals/benchmarks/sre_bench.py:891-892 | a recovery exit is a verified recovery for a trial that is no control |
| RateLimit.Limiter.Prune | src/backend/rate_limit.py:23-26 | after pruning a key's log holds exactly its accepted calls inside the window |
| RateLimit.Limiter.Record | src/backend/rate_limit.py:59 | an accepted call is added to the log and to the history of its key alone |
| RateLimit.Limiter.Limit | src/backend/rate_limit.py:41-59 | decisions and announced delays are those of a limiter over the full accepted history; an index error exactly when the maximum is not positive |
| RateLimit.PruneExact | src/backend/rate_limit.py:23-26 | pruning at one cutoff loses nothing for another exactly when no entry lies between them |
| RateLimit.WindowBound | src/backend/rate_limit.py:48-59 | every window of the configured length, wherever it ends, holds at most the maximum of accepted calls |
| RateLimit.RetryAdmitted | src/backend/rate_limit.py:50-57 | a call no sooner than the Retry-After delay (section 10.2.3 of RFC 9110) is admitted if none was accepted meanwhile |
| RateLimit.RetryTight | src/backend/rate_limit.py:50-57 | the announced delay outlasts what the oldest entry has left, and one second less does not |
| Reachability.PushImports | scripts/ci/check_module_reachability.py:95-103 | exactly the import targets of a file join the queue |
| Reachability.Visit | scripts/ci/check_module_reachability.py:86-103 | a step keeps the sweep invariant and shrinks the unseen files or the queue |
| Reachability.ReachableTopLevel | scripts/ci/check_module_reachability.py:77-105 | the loop terminates with exactly the top-level modules in the closure of the entry points under imports |
| Reachability.CheckModules | scripts/ci/check_module_reachability.py:108-126 | the unmanaged modules are exactly the top-level ones neither reachable nor experimental |
| Reachability.SweepEnd | scripts/ci/check_module_reachability.py:86-105 | with an empty queue the seen files are exactly the reachable ones |

## Left out

- Bootstrap resampling, means, latency, cost and recovery-time statistics, and floating-point rounding.
- The report's text, its other fields and the order of pairs; the diagnosis metric, which decides nothing.
- The gate's latency, cost, safety, adversarial and rollout clauses and `claim_disagreements`: each is settled by one comparison.
- JSON shape validation, schema checks, file reading and service-URL validation.
- Non-ASCII whitespace, letters and case folding; non-string JSON values in fault payloads and references.
- The normalisation of reference arguments (`_norm`, `_instant`, `_same`) and the walkers that find metrics in tool output.
- `policy_gate.decide_plan` and severity scoring: decisions are inputs of the gate.
- Idempotency keys, execution context and payload fields of a live request beyond action, target and parameters.
- Executing a request, Slack, Prometheus, HTTP and SQL themselves.
- An exception that escapes pre-approval delivery after some notification went out, which loses the record of it.
- The folded-alert lookup and what folding writes; open registration beside the first-run claim.
- Symbolic links and relative import paths of the reachability check.
- Cancellation during a fault injection, which is not an `Exception` and so skips the undo (`evals/benchmarks/fault_adapter.py:173`, `evals/benchmarks/fault_adapter.py:202`).
- The branch for an absence event without a time, which no stored event has.
- EvidenceLedger.Ledger.Close: visits the contract's metrics, taking for granted that a name the contract resolves is one of them.
