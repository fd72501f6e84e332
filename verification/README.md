# Radix operator: a verified model of its protocols

Radix is a platform on Kubernetes: an operator, an API server and a job scheduler that runs beside job components.
This project models the parts of the three whose correctness depends on the order of events, or on an argument that no
single function shows, and proves what they promise for every run, every schedule and every input. API calls are
contracts: an answer is an input, and wherever the original handles a failure the model lets it fail.

| module | what it models |
|---|---|
| `WorkQueue`, `ResourceLocker` | the contract of the rate limited work queue, and the operator's lock map with its two partition functions |
| `ControllerProtocol` | the operator's dispatcher, workers and informers as steps of one effect each, and a serial controller of one lock key |
| `ControllerSafety`, `ControllerTheorems`, `ControllerWork` | the joint invariant of those steps, what it means for every run, and that the loop does no more than it should |
| `Controller` | the same loop as an object that updates its queue and lock map, refined step by step to the protocol |
| `Matching`, `HorizontalScaling` | which HPA metric belongs to which KEDA trigger: a greedy walk and the only assignment there is |
| `PayloadGarbage` | the collector of payload secrets, as one pass and interleaved with creators and the clock |
| `FanIn`, `ApplicationQueries`, `LatestJobs` | errgroup with a buffered channel under every schedule, and the queries built on it |
| `EnvVars`, `CaseFolding` | environment variables edited by users, with the remembered value of radixconfig |
| `Overrides` | replica overrides under scale, reset, stop and start |
| `CronServer` | the concurrency policies of cron jobs |
| `EventStream` | the event stream response with its health checks, and what a client decodes from it |
| `BatchNames` | the names of batches and jobs: generated, printed, parsed, looked up |
| `Certificates` | the certificate request that decides the state reported for an external alias |
| `Options`, `Search`, `Sorting` | the option type, looking for the first match, and the contract of the library sort |

Concurrency is modelled in two ways. The controller and the garbage collector are step systems: a run is any sequence of
actions, and invariants are proved by induction over it. The fan-in, the event stream and the cron server are methods
in which every choice of a schedule, and every change by others, is an arbitrary one.

Each definition that a method's contract rests on is also pinned from outside, by a lemma or clause in plain terms that
does not use it: what a reading is (`Reports`), where a request goes (`LookupMeans`), what a callback does (the clauses
of `Callback`), what a request leaves behind (`RequestMeans`), what the order of names is (`LessIsPrecedes`).

## Where the code does less than it seems to promise

Each entry has the exact condition and an input at which the property fails.

- **Payload secrets.** The collector keeps a secret only if it was created *after* the moment 24 hours before the clock
  reading, so one that is exactly 24 hours old goes. With D the greatest age at which a secret may be referred to anew,
  and G the time from the reference listing to the clock reading, collecting is safe exactly if D + G is strictly below
  24 hours (`CollectingIsSafeIff`); at 24 hours and above a run that breaks a live reference is given (`LateRunBreaks`).
- **Environment variables.** Values and metadata are two writes. If the second fails, a variable keeps its baseline
  exactly if it had metadata, was not named, or its value does not change up to case (`TornRequestKeepsBaselineIff`,
  with an input in `TornRequestForgetsBaseline`); and metadata that was exact stays exact unless the request gives some
  variable the very value that its metadata remembers (`RequestKeepsExactIff`, `TornRequestLeavesStaleMetadata`).
  `BaselineKept` and `ExactKept` carry both conditions over any sequence of requests.
- **Cron batches.** Only batches that show Active count. With at most one batch live, and unless the policy is Allow, a
  callback is safe exactly if the live batch does not show Waiting before it (`FiringIsSafeIff`); if it does, nothing
  stops a second one (`WaitingIsOverlooked`). Under Allow a callback is safe exactly if no batch is live
  (`AllowIsSafeIff`).
- **Event stream.** The frames `event: started`, `event: completed` and `event: error` carry no data line, and by
  section 9.2.6 of the WHATWG HTML standard a client dispatches nothing for them. It receives exactly the lines if and
  only if none contains a carriage return (`RoundTripIff`, `StreamToClient`); of the line "a\rb" it receives "a"
  (`ReturnCutsLine`). A health check that waits for the mutex while the final frame is written follows it.
- **Busy locks.** A busy requeue is witnessed by another item that holds the lock at that moment (`BusyIsJustified`).
  That item need not be inside its Sync: in the run of `BusyWithoutSync` no sync has started yet.
- **Replica overrides, for a RadixDeployment made by hand.** A component is looked up by its name up to case, and the
  first match is taken. Names in a RadixDeployment are lower case, and radixconfig has each component name once, so
  what the operator deploys always meets the conditions here; the schema of a RadixDeployment itself does not exclude
  two components of one name. Starting an environment restores exactly the components that were at zero if and only if
  each of these is the first with its name (`StartIsExactIff`, `SecondTwinIsNotStarted`). Stopping leaves each
  component reported stopped or at zero if and only if each one to stop is the first with its name or was at zero
  (`StopLeavesEachStoppedIff`, `SecondTwinIsNotStopped`).

## Model

| member | source | states |
|---|---|---|
| ControllerTheorems.LocksAreExact | operator/common/controller.go:104-118 | in every reachable state the lock map is exactly the set of lock keys of the workers between a successful TryGetLock and their ReleaseLock, and two workers inside Sync never share a lock key |
| ControllerTheorems.OnlyHolderReleases | operator/common/controller.go:105-113 | no step of anybody else takes away a lock that a worker holds; in particular a worker that found the lock busy never releases it |
| ControllerTheorems.NoWorkIsLost | operator/common/controller.go:89-145 | before shutdown, a key that was enqueued or whose sync failed, with no sync started since, is dirty, delayed, held by the dispatcher, or with a worker that has not started its sync or will add it again |
| ControllerTheorems.OwedUntilStarted | operator/common/controller.go:125-145 | only the start of a key's own sync discharges the key, over any continuation of a run |
| ControllerTheorems.NeverStuck | operator/common/controller.go:65-123 | while some key is owed a sync before shutdown, a delay, the dispatcher or a worker can move |
| ControllerTheorems.RefinesSerial | operator/common/controller.go:89-123 | on each lock key the events of any run are a run of a controller that handles one item at a time |
| ControllerTheorems.SyncsDoNotOverlap | operator/common/controller.go:105-118 | of two syncs in one partition the first has ended before the second starts |
| ControllerTheorems.BusyIsJustified | operator/common/controller.go:105-110 | whenever a lock is found busy, another item of the same partition acquired it earlier and nothing was released on that key since |
| ControllerTheorems.BusyWithoutSync | operator/common/controller.go:104-118 | a run in which a lock is found busy before any sync has started |
| ControllerTheorems.PartitionsAreSerial | operator/common/utils.go:31-44 | with either partition function, syncs of objects that share a namespace, or a name, never overlap |
| ControllerTheorems.WorkersAreBounded | operator/common/controller.go:65-67 | at most `threadiness` workers run and at most `threadiness` + 1 items are in processing |
| ControllerTheorems.ReturnsClean | operator/common/controller.go:68-86 | once run has returned every worker is gone, no lock is left and on every key each started sync has ended |
| ControllerTheorems.ShutdownDrains | operator/common/controller.go:65-94 | after shutdown every dispatcher or worker step brings the return of run nearer, no other step delays it, and until then such a step is enabled |
| ControllerWork.SyncsAreEarned | operator/common/controller.go:89-145 | over any run a key's syncs started are at most its enqueues plus its failed syncs: neither a success nor a busy lock earns another sync |
| ControllerWork.RequeuedForAReason | operator/common/controller.go:105-139 | a key is put back for later only if the last that happened to it is a busy lock or a failed sync, and gets dirty only by an enqueue or the end of its delay |
| ControllerWork.WaitsOnlyWhenFull | operator/common/controller.go:65-95 | the dispatcher waits with an item exactly while `threadiness` workers run, and never if that is negative |
| ControllerSafety.StepKeepsInv | operator/common/controller.go:65-180 | every step keeps the joint invariant: items and locks accounted for, no lost work, serial order per key, shutdown order and the bound on workers |
| ControllerSafety.RunKeepsInv | operator/common/controller.go:65-180 | the joint invariant holds after every run |
| ControllerSafety.BusyIsWitnessed | operator/common/controller.go:105-110 | a lock found busy by a worker is the open session of a different item |
| Controller.Controller.constructor | operator/common/controller.go:65-78 | a new controller is in the initial state of the protocol with its own empty lock map |
| Controller.Controller.Enqueue | operator/common/controller.go:171-180 | is the protocol's enqueue step |
| Controller.Controller.ProcessNext | operator/common/controller.go:89-123 | makes the dispatcher's next step exactly when the protocol enables one, and otherwise changes nothing |
| Controller.Controller.Work | operator/common/controller.go:95-145 | is the protocol's step of that worker, in the source's order; it fails only after a sync that returned an error, is busy only on a lock that is taken, and puts its item back in no other case |
| Controller.Controller.Run | operator/common/controller.go:65-87 | under any schedule the object is in the state the step system computes, the invariant holds, and every key's syncs are earned |
| WorkQueue.AddKeepsConsistent | operator/common/utils.go:49-57 | adding, delaying and the end of a delay keep the queue equal to the dirty items nobody processes, each once |
| WorkQueue.GetKeepsConsistent | operator/common/utils.go:49-57 | handing out an item keeps that, and the item was dirty and not in processing |
| WorkQueue.DoneKeepsConsistent | operator/common/utils.go:49-57 | finishing an item keeps that, and an item marked dirty meanwhile is queued again |
| WorkQueue.QueueIsFifo | operator/common/utils.go:49-57 | what is added or queued again goes last, and the first item is handed out |
| ResourceLocker.DefaultResourceLocker.TryGetLock | operator/common/utils.go:21-25 | succeeds exactly if the key was absent, and the key is present afterwards either way |
| ResourceLocker.DefaultResourceLocker.ReleaseLock | operator/common/utils.go:27-29 | removes exactly the key |
| HorizontalScaling.ResolveTriggersCurrentState | api-server/api/models/horizontal_scaling_summary.go:75-133 | succeeds if and only if some order preserving assignment of triggers to metric names has all its readings accepted; then each trigger shows what the metric with the assigned index has under its name, and the failures of an unhappy external metric |
| HorizontalScaling.ResolvesIff | api-server/api/models/horizontal_scaling_summary.go:76-131 | such an assignment in plain terms: equal lengths, names and types; each list taken in order; and something to report for every trigger |
| HorizontalScaling.AcceptedIff | api-server/api/models/horizontal_scaling_summary.go:101-166 | a slot is accepted exactly if its name has the trigger's prefix or type and the metric at its index has no kind, or its kind and name; the reading is that metric's value |
| HorizontalScaling.CronAndCpu | api-server/api/models/horizontal_scaling_summary.go:98-132 | an external and a resource trigger: both values are shown |
| HorizontalScaling.ResolvesUniquely | api-server/api/models/horizontal_scaling_summary.go:98-130 | at most one such assignment exists |
| HorizontalScaling.ResolvesBijectively | api-server/api/models/horizontal_scaling_summary.go:80-140 | it maps trigger positions one to one onto the HPA's metric indices, every index is in range, and both name lists are consumed exactly, without a gap |
| HorizontalScaling.WalkMissesNothing | api-server/api/models/horizontal_scaling_summary.go:98-130 | if the walk's greedy choice is not accepted at some trigger, no assignment exists at all |
| HorizontalScaling.WalkTriggers | api-server/api/models/horizontal_scaling_summary.go:98-132 | success reports for every trigger what the metric at the index of its slot has; failure means that nothing resolves the triggers |
| HorizontalScaling.WalkReadsInRange | api-server/api/models/horizontal_scaling_summary.go:98-138 | the metric that the walk reads exists, also in a walk that fails later, and whether the slot is accepted depends on that metric's kind and name alone, so the too-short check never fires |
| HorizontalScaling.ReadTrigger | api-server/api/models/horizontal_scaling_summary.go:101-129 | one iteration takes the slot of the greedy choice, succeeds exactly if there is something to report for it, and reports that |
| HorizontalScaling.BuildTriggerSummaries | api-server/api/models/horizontal_scaling_summary.go:36-53 | the lookup by config index is always in range; every trigger shows what its own metric has, or none shows anything |
| HorizontalScaling.PrefixUnambiguous | api-server/api/models/horizontal_scaling_summary.go:102-102 | a metric name carries the prefix of at most one trigger index, whatever the types |
| HorizontalScaling.DecimalInjective | api-server/api/models/horizontal_scaling_summary.go:102-102 | different indices print differently |
| HorizontalScaling.NumeralValue | api-server/api/models/horizontal_scaling_summary.go:162-162 | a numeral that is shown stands for the number |
| Matching.WalkHasNoGaps | api-server/api/models/horizontal_scaling_summary.go:99-126 | the walk takes each list from its front, in order and without a gap |
| Matching.FollowsWalk | api-server/api/models/horizontal_scaling_summary.go:99-129 | exchange: an assignment that agrees with the walk so far agrees with its next choice |
| Matching.AssignmentUnique | api-server/api/models/horizontal_scaling_summary.go:99-129 | two complete assignments are equal |
| Matching.AssignmentUsesAll | api-server/api/models/horizontal_scaling_summary.go:80-132 | a complete assignment uses up both lists |
| Matching.AssignmentIsBijection | api-server/api/models/horizontal_scaling_summary.go:80-140 | an index is in range exactly if some trigger has it, and no two triggers share one |
| PayloadGarbage.CollectingIsSafeIff | job-scheduler/internal/payload.go:15-42 | over all interleavings no batch refers to a collected secret, if and only if the greatest age at which a secret is referred to anew plus the time from listing to clock reading is below 86400 seconds |
| PayloadGarbage.UndisturbedPass | job-scheduler/internal/payload.go:15-42 | a pass that nobody disturbs, after any run, finds exactly the unreferenced secrets at least 86400 seconds old and deletes them |
| PayloadGarbage.CollectedIsUnreferenced | job-scheduler/internal/payload.go:15-42 | with every pass in time, nothing collected is referred to, then or later |
| PayloadGarbage.LateRunBreaks | job-scheduler/internal/payload.go:28-34 | at or above the bound a concrete run collects a secret that a batch refers to |
| PayloadGarbage.RunKeepsInv | job-scheduler/internal/payload.go:15-58 | after every run each pass's listings are good enough for what it will delete |
| PayloadGarbage.Namespace.PayloadSecretRefNames | job-scheduler/internal/payload.go:44-58 | yields exactly the names that some job of some batch refers to |
| PayloadGarbage.Namespace.GarbageCollect | job-scheduler/internal/payload.go:15-42 | without concurrent change exactly the unreferenced secrets at least 24 hours old go, except where the deletion fails; a failed listing changes nothing |
| FanIn.Run | api-server/api/kubequery/radixdeployment.go:21-47 | under every schedule and any limit but 0: no send blocks or follows close, the wait ends, an error is returned exactly if some task fails, and otherwise a permutation of what the tasks send is received |
| FanIn.MoveExists | api-server/api/kubequery/radixdeployment.go:22-37 | while a task is unfinished some task can start or proceed |
| FanIn.RoomLeft | api-server/api/kubequery/radixdeployment.go:21-33 | as long as a task has not sent, the channel has room |
| FanIn.DeliveredAll | api-server/api/kubequery/radixdeployment.go:39-47 | values sent once per task, in any order, are a permutation of those of the tasks |
| ApplicationQueries.FilterRadixRegByAccess | api-server/api/applications/get_applications_handler.go:168-210 | whatever the schedule: an error exactly if a check fails or is cancelled; otherwise exactly the reconciled registrations that the user may access, names ascending character by character; with unique names that is one list |
| ApplicationQueries.AccessibleUnique | api-server/api/applications/get_applications_handler.go:180-189 | exactly the reconciled and allowed registrations are kept, and names stay unique |
| ApplicationQueries.SortedIsUnique | api-server/api/applications/get_applications_handler.go:206-208 | two sorted lists of the same registrations with unambiguous names are equal, so the result does not depend on the sort |
| ApplicationQueries.LessIsPrecedes | api-server/api/applications/get_applications_handler.go:206-208 | the order of names: at the first difference the smaller character, or the end of the name, goes first |
| ApplicationQueries.EnvironmentsForApplication | api-server/api/applications/get_applications_handler.go:134-166 | an error exactly if a query fails, otherwise all environments once each, names ascending character by character |
| ApplicationQueries.EnvironmentsForApplications | api-server/api/applications/get_applications_handler.go:93-132 | an error exactly if something of some application cannot be read; otherwise each application gets its own environments, names ascending, and no other key is in the map |
| ApplicationQueries.RadixDeploymentsForEnvironments | api-server/api/kubequery/radixdeployment.go:17-48 | an error exactly if an environment cannot be read, otherwise all deployments of all environments, none dropped or duplicated |
| ApplicationQueries.ConcatOfPermutation | api-server/api/kubequery/radixdeployment.go:43-46 | appending the received lists in any order gives the same deployments |
| LatestJobs.LatestJob | api-server/api/applications/get_applications_handler.go:235-244 | none exactly if no job has started; otherwise the first listed of those started last |
| LatestJobs.LatestJobPerApplication | api-server/api/applications/get_applications_handler.go:223-266 | in whatever order the goroutines store, each application with a started job gets its own latest one, and no other is in the map |
| EnvVars.BaselineKept | api-server/api/environmentvariables/env_vars_handler.go:125-167 | over any sequence of requests each variable keeps its baseline up to case, given that requests whose metadata write fails meet the exact condition in the state they find |
| EnvVars.NamesAndReservedKept | api-server/api/environmentvariables/env_vars_handler.go:125-167 | over any sequence of requests, whichever calls fail, no variable appears or disappears and reserved variables keep value and metadata |
| EnvVars.ExactKept | api-server/api/environmentvariables/env_vars_handler.go:125-167 | over any sequence of requests exact metadata stays exact, given that requests whose metadata write fails meet the exact condition |
| EnvVars.RequestKeepsBaseline | api-server/api/environmentvariables/env_vars_handler.go:133-158 | one request keeps the baseline of every variable up to case |
| EnvVars.RequestKeepsExactIff | api-server/api/environmentvariables/env_vars_handler.go:148-166 | metadata that existed only for variables that differ from their baseline does so after a request, whichever calls fail, exactly if a request whose metadata write fails gives no variable the value its metadata remembers |
| EnvVars.TornRequestKeepsBaselineIff | api-server/api/environmentvariables/env_vars_handler.go:162-166 | when only the metadata write fails, a baseline survives exactly if there was metadata, the variable was not named, or its value does not change |
| EnvVars.TornRequestForgetsBaseline | api-server/api/environmentvariables/env_vars_handler.go:162-166 | an input at which a baseline is lost |
| EnvVars.TornRequestLeavesStaleMetadata | api-server/api/environmentvariables/env_vars_handler.go:162-166 | an input at which metadata stays for a variable that has its baseline again |
| EnvVars.RequestsCollapse | api-server/api/environmentvariables/env_vars_handler.go:133-158 | a request that names variables several times has the effect of keeping only the last entry of each, with metadata equal up to case |
| EnvVars.RequestMeans | api-server/api/environmentvariables/env_vars_handler.go:133-166 | a request that succeeds, in plain terms: existing variables get the trimmed value of their last entry, and metadata exactly if that differs from the baseline; others are not created and lose metadata; what is not named, or is reserved, is left alone |
| EnvVars.TrimSpaceMeans | api-server/api/environmentvariables/env_vars_handler.go:145-145 | a value loses the white space at both ends and nothing else |
| EnvVars.SpacesAre | api-server/api/environmentvariables/env_vars_handler.go:145-145 | white space is the Unicode property White_Space, by code point |
| EnvVars.WantedIsLast | api-server/api/environmentvariables/env_vars_handler.go:133-147 | a request asks, for each variable that is not reserved, for the trimmed value of its last entry |
| EnvVars.EnvVarsHandler.ChangeEnvVar | api-server/api/environmentvariables/env_vars_handler.go:125-167 | the new values and metadata are what the last entries ask for, relative to the baselines, whichever of the three API calls fail |
| CaseFolding.EqualFoldIsEquivalence | api-server/api/environmentvariables/env_vars_handler.go:150-155 | comparison up to case is an equivalence |
| CaseFolding.EqualFoldIff | api-server/api/environmentvariables/env_vars_handler.go:150-155 | two strings are equal up to case exactly if folding makes them equal |
| Overrides.EnvironmentHandler.ScaleComponent | api-server/api/environments/component_handler.go:30-47 | succeeds exactly for an existing component, 0 to 20 replicas and working API calls; then only the override of the first component with the name changes, to that number; each refusal has its own cause and changes nothing |
| Overrides.EnvironmentHandler.ResetScaledComponent | api-server/api/environments/component_handler.go:50-66 | removes the override of the first component with the name and changes nothing else; having none is an error unless ignored; a name that is no component changes nothing and is refused for its own cause |
| Overrides.EnvironmentHandler.StopComponent | api-server/api/environments/component_handler.go:69-87 | sets the override of the first component with the name to zero, unless it is reported stopped, which is an error unless ignored; a name that is no component changes nothing and is refused for its own cause |
| Overrides.EnvironmentHandler.Patch | api-server/api/environments/component_handler.go:202-208 | after a successful patch one component has the override; every other override in any environment, all names, jobs and the order are as before; a failed patch changes nothing |
| Overrides.OnlyOverrideIff | api-server/api/environments/environment_handler.go:450-469 | one override changed and nothing else: these facts determine the whole state after a patch |
| Overrides.EnvironmentHandler.GetUpdater | api-server/api/environments/environment_handler.go:414-448 | components go before jobs, each found by its first name equal up to case, with the error the lookup ends in |
| Overrides.LookupMeans | api-server/api/environments/environment_handler.go:414-448 | a lookup in plain terms: a component exactly if one has the name up to case, and then the first; a job exactly if only a job has it; otherwise a missing component, deployment or API answer, each exactly when that is so |
| Overrides.EnvironmentHandler.FindComponent | pkg/apis/deployment/deployment.go:63-70 | finds the first component whose name is equal up to case |
| Overrides.EnvironmentHandler.FindJob | pkg/apis/deployment/deployment.go:73-80 | finds the first job whose name is equal up to case |
| Overrides.EnvironmentHandler.StopEnvironment | api-server/api/environments/environment_handler.go:306-323 | the components handled before the first failure, and only those, have had their effect; success means all were handled |
| Overrides.EnvironmentHandler.StartEnvironment | api-server/api/environments/environment_handler.go:326-344 | resets exactly what the components at zero lead to, up to the first failure; success means all were handled |
| Overrides.EnvironmentHandler.StopApplication | api-server/api/environments/environment_handler.go:367-380 | success leaves each environment as a stop of it alone would; every component itself is reported stopped or at zero exactly if each one to stop is the first with its name or was at zero; other environments are untouched; failure has a reason |
| Overrides.EnvironmentHandler.StartApplication | api-server/api/environments/environment_handler.go:383-396 | success leaves each environment as a start of it alone would, with no reachable component at zero; other environments are untouched; failure has a reason |
| Overrides.EnvironmentHandler.Serve | api-server/api/environments/component_handler.go:30-87 | over any sequence of requests legal overrides stay legal (absent or 0 to 20), names and jobs never change and jobs never gain an override |
| Overrides.StopLeavesEachStoppedIff | api-server/api/environments/environment_handler.go:316-322 | a successful stop leaves every component reported stopped or at zero, if and only if each one to stop is the first with its name or was at zero; distinct names suffice |
| Overrides.StopLeavesStopped | api-server/api/environments/environment_handler.go:316-322 | for every component not reported stopped, the one that its name reaches is at zero, whatever the names |
| Overrides.SecondTwinIsNotStopped | api-server/api/environments/environment_handler.go:316-322 | a deployment with one name twice whose second component keeps running after a successful stop |
| Overrides.StaysStopped | api-server/api/environments/environment_handler.go:316-322 | stopping again, even in part, undoes no stop |
| Overrides.StopIsExact | api-server/api/environments/environment_handler.go:316-322 | with distinct names exactly the components not reported stopped get zero and all others keep their overrides |
| Overrides.StartLeavesNoZero | api-server/api/environments/environment_handler.go:336-343 | after a successful start no component that a name can reach is at zero |
| Overrides.StartIsExactIff | api-server/api/environments/environment_handler.go:336-343 | a start clears exactly the zeros and keeps every other override, if and only if each component at zero is the first with its name up to case; distinct names suffice |
| Overrides.SecondTwinIsNotStarted | api-server/api/environments/environment_handler.go:336-343 | a deployment with one name twice whose second component stays at zero after a successful start |
| Overrides.NotReached | pkg/apis/deployment/deployment.go:63-70 | a component that its own name does not reach is reached by no name of the deployment |
| CronServer.Server.Run | job-scheduler/internal/cronserver/cronserver.go:64-92 | for any order of callbacks and any change by others, unless the policy is Allow at no time is more than one cron batch live, given that no live batch still shows Waiting when the next callback begins |
| CronServer.Server.Callback | job-scheduler/internal/cronserver/cronserver.go:65-89 | with no batch listed Active, or under Allow, nothing but a failed call or a used name prevents a creation; a listed Active batch prevents it under Forbid; under Replace every such batch was asked to stop first, or one could not be; nothing else is asked to stop; from a settled state with at most one live batch every state on the way has at most one |
| CronServer.Server.ShouldRun | job-scheduler/internal/cronserver/cronserver.go:102-130 | agrees only if none was Active, the policy is Allow, or under Replace all Active ones were asked to stop; declines only if the listing failed, or an Active one was there that the policy does not let pass |
| CronServer.Server.StopBatchJobs | job-scheduler/internal/cronserver/cronserver.go:155-171 | success means every batch named was asked to stop, in order; failure means the last one asked could not be stopped, and none after it was asked |
| CronServer.Server.FindActiveCronBatches | job-scheduler/internal/cronserver/cronserver.go:132-153 | exactly the batches whose condition is Active, neither waiting nor finished ones |
| CronServer.LiveAtCreationWasWaiting | job-scheduler/internal/cronserver/cronserver.go:102-130 | under Forbid and Replace a batch still live at a creation showed Waiting when it was listed |
| CronServer.FiringIsSafeIff | job-scheduler/internal/cronserver/cronserver.go:65-130 | under Forbid and Replace, and with at most one batch live, whatever a callback meets leaves at most one live, if and only if every batch that shows Waiting before it was already asked to stop |
| CronServer.AllowIsSafeIff | job-scheduler/internal/cronserver/cronserver.go:102-130 | under Allow that is so if and only if no batch is live before it |
| CronServer.WaitingIsOverlooked | job-scheduler/internal/cronserver/cronserver.go:102-150 | a callback that lists no Active batch, and that nothing else gets in the way of, does create a batch beside a live one that shows Waiting, under every policy |
| EventStream.EventStreamResponse | api-server/internal/controller/controller.go:91-147 | for every interleaving the output is whole frames: without health checks, started, one data frame per line in order, one final frame |
| EventStream.EmptyStream | api-server/internal/controller/controller.go:105-146 | the very bytes of a response without lines, for each way in which reading ends |
| EventStream.StreamToClient | api-server/internal/controller/controller.go:91-147 | end to end, a client decodes exactly the scanned lines, if and only if no line keeps a carriage return |
| EventStream.RoundTripIff | api-server/internal/controller/controller.go:127-134 | decoding the frames by section 9.2.6 gives back the data lines if and only if none has a carriage return |
| EventStream.ScanOfFeeds | api-server/internal/controller/controller.go:128-130 | lines that each end in a line feed are scanned back, if none ends in a carriage return |
| EventStream.ScanReturnLine | api-server/internal/controller/controller.go:128-130 | a carriage return before the line feed is dropped |
| EventStream.ScanLast | api-server/internal/controller/controller.go:128-130 | a last line needs no line feed |
| EventStream.DecodeFrame | api-server/internal/controller/controller.go:105-146 | a client gets one message from a data frame, nothing from any other, and each frame leaves the parser as it found it |
| EventStream.DecodedHaveNoReturn | api-server/internal/controller/controller.go:132-132 | no message a client gets ever contains a carriage return |
| EventStream.ScannedAsOne | api-server/internal/controller/controller.go:128-130 | the scanner keeps a line with a carriage return inside as one line |
| EventStream.ReturnCutsLine | api-server/internal/controller/controller.go:132-132 | of such a line a client receives only what comes before the carriage return |
| EventStream.HealthChecksCarryNothing | api-server/internal/controller/controller.go:113-124 | health checks, wherever they fall, do not change what is received |
| BatchNames.PrintedNameParsesIff | job-scheduler/internal/batch.go:69-78 | for every batch name, a printed name parses to its two parts exactly if the job name has no dash |
| BatchNames.ParsedNameReprints | api-server/api/environments/job_handler.go:276-284 | exactly the names with a dash are accepted, and each prints to itself again, its job part without a dash |
| BatchNames.GeneratedNames | job-scheduler/internal/batch.go:41-57 | for every component name: a 16 character part that begins with up to 12 of the name, a 46 character batch name with the part and the timestamp in their places, 55 with the job name, and the printed name parses to its parts |
| BatchNames.PrintedJobIsFoundIff | api-server/api/models/batch.go:103-104 | a job is found again by the name printed for it exactly if its own name has no dash, given distinct job names in the batch |
| BatchNames.FoundJobPrintsItsName | api-server/api/environments/job_handler.go:286-328 | whatever is found for a name carries that name |
| BatchNames.FindJob | api-server/api/environments/job_handler.go:323-328 | the first job with the name, or none if there is none |
| Certificates.AutomationCondition | api-server/api/models/component.go:150-195 | nothing without automation; otherwise pending without a certificate, success for a ready one, and else the verdict of a request of maximal revision, whatever order the sort leaves |
| Certificates.StaleRequestsAreIrrelevant | api-server/api/models/component.go:174-193 | two lists of requests that differ only in requests which do not count or which the other list outdates, in any order, allow the same reports |
| Certificates.ReportIsDetermined | api-server/api/models/component.go:174-193 | with distinct revisions among the requests that count, any two lists that differ only in stale requests, in any order, give the same report |
| Certificates.DistinctHaveOneLatest | api-server/api/models/component.go:182-184 | distinct revisions make one request the latest, if any counts |
| Certificates.LatestDecides | api-server/api/models/component.go:182-193 | whenever only one request is a latest one the report is its verdict |
| Certificates.SameLatest | api-server/api/models/component.go:174-184 | adding and removing stale requests keeps which requests are latest ones |
| Certificates.FirstIsLatest | api-server/api/models/component.go:182-184 | the first request after the sort has maximal revision among those that count |
| Certificates.VerdictMeans | api-server/api/models/component.go:186-194 | a request says failed exactly if some condition is a failure, with the message of the first such; otherwise pending with the message of its first Ready condition, or none |
| Certificates.ReportMeans | api-server/api/models/component.go:150-239 | the report in plain terms: success stands for a first Ready condition that is True; a failure carries the message of a Denied, invalid or failed condition of a controlled request of highest revision at least the certificate's; pending stands for no such request, or one without such a condition |

## Left out

- Kubernetes, Radix, KEDA and cert-manager clients, HTTP routing, metrics, logging and the informers' event filters.
- The internals of client-go's work queue, errgroup, sync.Map, sync.Mutex, robfig/cron and the sort library: their documented contracts are used.
- Rate limiter delays and Forget: a delayed key is added again at an arbitrary later time. Retries on conflict inside one sync count as one sync.
- Panics inside Sync, and what happens to queued items after shutdown.
- Fairness: that something can always move is proved, that a particular key is reached is left to the scheduler.
- Reuse of a deleted payload secret's name: a new secret has a new name.
- The timestamp annotation, environment variables and JSON merge patch of a replica change, and concurrent commits to one RadixDeployment: requests are handled one at a time.
- The derivation of a component's status: whether it is reported stopped is an input.
- GetLatestRadixDeployment: its comparator is no strict weak order, so which deployment it returns is an input; restart requests.
- The inside of StopRadixBatchJob and CreateJob: a stop request succeeds only for a batch that exists and is not completed, and a creation under a name in use fails. Batches restarted by users, and several replicas of the job scheduler.
- A missing failure count on an unhealthy external metric, target utilizations and identities in the scaling summary.
- The X.509 and TLS parts of an external alias, and the parsing of the revision annotation: a request's revision is given, or absent if it does not parse.
- BatchNames.ParsedNameReprints: the two copies of the parser have the same text and are one function here, so their agreement is by construction.
- Random strings and timestamps are inputs of the generated names; lengths count characters, not bytes.
- Write errors on an event stream, a response writer that cannot flush, and a line longer than the scanner's buffer.
- CronServer.Server.Run: the mutex is modelled by running callbacks one after another, and the 30 second timeout of a callback by API calls that fail.
- Overrides.EnvironmentHandler.GetUpdater: the read of the deployment and the read of the component's state share one failure.
- EnvVars.BaselineKept: two requests never overlap.
