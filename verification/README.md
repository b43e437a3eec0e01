# Verified model of the autoscaling decision core

The repository studies a predictive Kubernetes autoscaler. A forecast is turned into a replica
command by a policy with sliding-window scale-down stabilization, a reactive safety engine raises a
floor when Ready capacity is overloaded, an arbiter takes the larger of the two, and one controller
writes the result to one Deployment. Around that core stand deterministic tools that generate
workloads and forecasts, replay the policy, match forecast pairs by accuracy, keep the campaign
ledger and evaluate the runs.

This project models that behaviour in Dafny and proves properties of whole runs. Stateful code is
modelled as classes and loops (`Engine`, `Store`, `Accumulator`, `Manager`, `Controller`, and the
replay and scan loops); each method is proved equal to a function of its inputs or of its history, and
the theorems are about those functions. `dafny verify dfyconfig.toml` checks everything.

## How the parts fit

| modules | what they hold |
|---|---|
| `Basics`, `Capacity` | extrema, sums, exact rounding; the capacity lookup, its validation pass and its scans |
| `PolicyModel`, `PolicyDecisions` | the policy as a function of the history of bounded requirements, and its theorems |
| `PolicyEngine`, `OraclePolicy`, `ForecastReplay`, `PolicyAgreement`, `PolicyRules` | the four implementations of the policy, proved equal to that function and to each other; the rules for every decision in the fields of the configuration |
| `ForecastQuality` | lead coverage, order and distance preservation, replica-second accounting |
| `SafetyHistory`, `SafetyEngine`, `SafetyWindows`, `ClosedLoop` | the safety state machine, what its state means, every decision in the words of demand, listed capacity and seconds, and the bound on overload in the closed loop |
| `Arbiter`, `ControllerModel`, `Controller`, `AgreementLimits` | interleaved predictive ticks and safety observations, Deployment agreement, the write log, and where agreement ends |
| `Forecast`, `Observations`, `RequestSchedule` | the forecast contract, the dispatch-to-observation pipeline, request expansion |
| `Ranks`, `SignFlip`, `Holm` | average ranks, the exact sign-flip test and Holm's adjustment |
| `ForecastMutation`, `MutationLaws`, `PairSelection` | controlled forecast errors in exact micro-RPS, what each of them does, why pairs match, which pair is chosen |
| `Campaign`, `CampaignHistory`, `Episodes` | the attempt ledger and what every command history keeps; maximal runs, event windows, action counts |

## What the proofs found

- The policy is written four times with three different branch conditions. They agree because, with
  unlimited scale-up, the command is never below the window maximum (`PolicyModel.NeverBelowWindow`).
  With a limited step it holds over all histories between two bounds exactly when one step spans the
  bounds, and exactly then the limited policy equals the unlimited one (`PolicyModel.StepLimitMatters`).
  Over workload traces the exact condition is that one step spans the commands they can reach
  (`PolicyAgreement.UnlimitedIff`), and then all four agree (`PolicyAgreement.FourWays`).
- An up-step of 0 means "unlimited" in the deployed engine, whereas the offline engine writes
  unlimited as an absent step. Read literally, a step of 0 freezes scale-up
  (`PolicyModel.ZeroStepNeverRises`); the two translations are in the two `SettingsOf` functions.
- Both engines reject negative workloads; the two replays do not. The run validator's replay fails on
  a window of zero samples, where the other three treat it as one (`PolicyAgreement.FourWays`).
- The forecast contract protects the policy from every capacity error exactly when the safety factor
  is at most 1 (`Controller.ContractProtectsPolicy`); validation admits larger factors.
- Validation admits lookups that go on past the replica maximum. Then one window can move the safety
  engine while the arbiter refuses its floor (`AgreementLimits.OversizedLookupDisagrees`). Over all runs
  of a valid configuration arbiter and engine keep the same floor exactly when the minima are equal and no
  valid observation needs more than the policy's maximum, unless the safety engine rejects every command
  of the policy (`AgreementLimits.FloorsAgreeIff`). The condition can be read off the lookup and the
  observable rates (`AgreementLimits.WithinMaximumByCounts`).
- A refused floor does no harm to the rest: arbiter, log and Deployment stay consistent in every run of
  every valid configuration (`ControllerModel.Agreement`, `ControllerModel.WriteLog`). Only the two
  results about the safety engine's own floor (`ControllerModel.FloorAgreement`,
  `ControllerModel.SafetyFinalAgrees`) ask for `ControllerModel.Compatible`.
- Safety that never triggers is invisible if its minimum is not above the policy's
  (`ControllerModel.UntriggeredSafetyIsInvisible`); with a higher one it changes the updates
  (`AgreementLimits.HigherMinimumIsVisible`).
- A failed or mismatched scale update is not retried while the final count repeats
  (`AgreementLimits.LostUpdateNotRetried`, with the concrete run `AgreementLimits.LostUpdate`); the next
  update that is acknowledged as sent restores agreement, and an update ends agreement exactly when it is
  not acknowledged as sent (`AgreementLimits.AcknowledgedUpdateAgrees`).
- The closed-loop replay starts with one Ready replica whatever the configured minimum. The bound is
  proved for any start (`ClosedLoop.OverloadBound`) and specialized to a minimum of 1. With a full lookup
  it is attained exactly when the first count above the minimum serves some demand
  (`ClosedLoop.OverloadBoundReachedIff`), and the replay completes exactly on the in-range traces
  (`ClosedLoop.Completes`).
- With a down-step of 0 the forecast replay labels a command that cannot fall a scale-down
  (`ForecastReplay.LabelsAgree`); the deployed validation excludes that step.
- Early and late shifts of an isolated event always match (`ForecastMutation.TimingPairMatches`); shifts of a
  whole trace, used for the periodic group, match exactly when its clamped ends err alike
  (`ForecastMutation.GlobalShiftMatches`).
- Rounded request offsets stay inside their second exactly when it has fewer than a million requests
  (`RequestSchedule.SlotsFit`).

## Model

| member | source | states |
|---|---|---|
| Capacity.CheckLookup | controller/internal/policy/policy.go:51-63 | one pass accepts exactly the non-empty lookups that increase strictly in replicas and RPS, start positive and cover the replica bounds |
| Capacity.ScanRequired | controller/internal/policy/policy.go:99-104 | the scan returns the first point that serves the demand within 1e-9, or nothing |
| Capacity.ScanCapacity | controller/internal/safety/safety.go:108-111 | the scan returns the RPS listed for a replica count, or nothing when the count is not listed |
| Capacity.RequiredDefined | controller/internal/safety/safety.go:113-117 | a demand is servable iff the last point serves it, and the requirement lies within the lookup |
| Capacity.RequiredMonotone | controller/internal/policy/policy.go:98-104 | more demand never needs fewer replicas, and whatever is below a servable demand is servable |
| Capacity.RequiredIsFewest | controller/internal/policy/policy.go:98-104 | the requirement is the fewest listed replicas that serve the demand, and exists iff some listed count serves it |
| Capacity.RequiredExceeds | controller/internal/safety/safety.go:125 | more than a count are required iff the demand exceeds what every listed point up to that count serves |
| Capacity.ListedExceeds | controller/internal/safety/safety.go:124 | for a listed count that is the comparison with its own listed capacity |
| Capacity.OverloadNeedsMore | safety-net/safety_reference.py:75-78 | demand exceeds the Ready capacity iff it needs strictly more replicas than are Ready |
| PolicyEngine.Validate | controller/internal/policy/policy.go:29-65 | accepts exactly the valid configurations |
| PolicyEngine.Engine.New | controller/internal/policy/policy.go:87-92 | an engine exists iff the configuration is valid, and starts with an empty history |
| PolicyEngine.Engine.RawReplicas | controller/internal/policy/policy.go:94-105 | the requirement of the adjusted workload, with the two error cases told apart |
| PolicyEngine.WindowMaximum | controller/internal/policy/policy.go:120-132 | the clipped window scan computes the maximum of the last max(1, window) requirements |
| PolicyEngine.LimitStep | controller/internal/policy/policy.go:133-144 | the nested limits compute the step of the policy model, with 0 as no up-limit |
| PolicyEngine.Engine.Decide | controller/internal/policy/policy.go:107-159 | every field of the decision is a function of the whole history of requirements, and an error changes nothing; PolicyRules.DeployedRules says the same in the fields of the configuration |
| OraclePolicy.Engine.RawReplicas | forecasts/oracle/tools/policy.py:62-69 | the requirement of the adjusted workload, with the two error cases told apart |
| OraclePolicy.Engine.Decide | forecasts/oracle/tools/policy.py:71-109 | the same decision function of the history as the deployed engine, for any step limits; PolicyRules.OfflineRules says it in the fields of the configuration |
| OraclePolicy.RunPolicy | forecasts/oracle/tools/policy.py:112-114 | a run succeeds iff every single workload is non-negative and servable, and yields the model's decisions |
| PolicyRules.DeployedRules | controller/internal/policy/policy.go:107-159 | decision i in configured fields: adjusted workload, fewest listed replicas, bounds, the maximum over the configured seconds, a command as close to it as maxDownStep and a positive maxUpStep allow from the command before (from the initial count first), its action and held flag |
| PolicyRules.OfflineRules | forecasts/oracle/tools/policy.py:71-109 | the same rules for the offline engine, with an absent up-step as no limit |
| PolicyRules.RulesDetermine | controller/internal/policy/policy.go:107-159 | the rules leave exactly one decision |
| PolicyRules.DeployedPeak | controller/internal/policy/policy.go:120-132 | with unlimited scale-up a single peak stays commanded for exactly the decisions less than max(interval, stabilization) seconds after it |
| PolicyRules.OfflinePeak | forecasts/oracle/tools/policy.py:76-81 | the offline engine holds a single peak for exactly max(1, stabilization // interval) decisions |
| ForecastReplay.DequeIsWindow | forecasts/mutations/tools/mutation_framework.py:74-78 | the bounded deque always holds the policy's window, so its maximum is the stabilized requirement |
| ForecastReplay.BranchesAgree | forecasts/mutations/tools/mutation_framework.py:79-82 | testing the new requirement takes the same branch as testing the window maximum |
| ForecastReplay.ReplayBranch | forecasts/mutations/tools/mutation_framework.py:79-84 | the replay's three branches give the policy's command, for every down-step, with the replay's own action and held flag |
| ForecastReplay.LabelsAgree | forecasts/mutations/tools/mutation_framework.py:81-82 | those labels are the engine's iff the down-step is at least 1 or the window maximum is not below the prior command |
| ForecastReplay.Replay | forecasts/mutations/tools/mutation_framework.py:73-90 | the bounded replay fails iff a value is beyond the lookup, and otherwise yields every decision with its own labels |
| ForecastReplay.RowsAreDecisions | forecasts/mutations/tools/mutation_framework.py:73-90 | with a down-step of at least 1 the rows are the engine's decisions in every field |
| ForecastReplay.UnpaddedWindow | experiments/primary/tools/validate_final_run.py:19-24 | a deque of length 0 stays empty; a longer one holds the policy's window |
| ForecastReplay.Desired | experiments/primary/tools/validate_final_run.py:17-27 | the validator's replay yields the policy's commands, and fails iff a value is beyond the lookup or the window is empty |
| PolicyAgreement.TwoEngines | forecasts/oracle/tools/policy.py:71-114 | for configurations whose fields agree, the deployed and the offline engine accept the same traces and take the same decisions under any step limits |
| PolicyAgreement.AlikeSettings | forecasts/oracle/tools/policy.py:8-17 | the two engines have one policy iff their configured fields agree, with an up-step of 0 for an absent one |
| PolicyAgreement.WideStepDecisions | controller/internal/policy/policy.go:133-144 | an up-step that spans the commands accepted traces can reach, from the lowest to the maximum, changes no decision on any accepted trace |
| PolicyAgreement.UnlimitedIff | forecasts/mutations/tools/mutation_framework.py:73-84 | on every accepted trace the limited policy takes the decisions of the unlimited one, which the replays compute, iff the up-step spans the commands accepted traces can reach (or no workload is servable) |
| PolicyAgreement.FourWays | experiments/primary/tools/validate_final_run.py:17-27 | the engines take the decisions of the limited policy and the replays those of the unlimited one, so all four agree when the up-step spans the commands accepted traces can reach; under any limit, the exact workloads, element by element, on which they differ in accepting a trace |
| PolicyModel.NeverBelowWindow | controller/internal/policy/policy.go:119-144 | with unlimited scale-up the command is the larger of the window maximum and one down-step below the prior command |
| PolicyModel.HeldForWindow | controller/internal/policy/policy.go:119-144 | a requirement stays covered for every decision of its stabilization window |
| PolicyModel.HoldExpires | controller/internal/policy/policy.go:119-144 | after a single peak the peak command lasts exactly one window |
| PolicyModel.HeldBecause | controller/internal/policy/policy.go:151-156 | a scale-down is held iff an earlier requirement equal to the command is still in the window |
| PolicyModel.ClosedForm | controller/internal/policy/policy.go:107-159 | the command is exactly the maximum of the decayed initial command and of every requirement less one down-step per decision since it left the window |
| PolicyModel.NearestAllowed | controller/internal/policy/policy.go:133-144 | under any step limits the command is the allowed count nearest to the window maximum |
| PolicyModel.OrderPreserving | controller/internal/policy/policy.go:119-144 | under any step limits, pointwise larger requirements give larger commands, up to any constant slack |
| PolicyModel.NonExpansive | controller/internal/policy/policy.go:119-144 | two runs never differ by more replicas than their requirements have differed |
| PolicyModel.CommandInBounds | controller/internal/policy/policy.go:112-144 | the command stays within the replica bounds over every run |
| PolicyModel.ZeroStepNeverRises | forecasts/oracle/tools/policy.py:84-88 | an up-step of 0 taken literally never rises above the initial command |
| PolicyModel.StepLimitMatters | controller/internal/policy/policy.go:133-144 | between two bounds the window invariant holds over all histories, and the limited policy equals the unlimited one, iff the up-step is absent or at least the distance of the bounds |
| PolicyModel.LimitedStepLagsWindow | controller/internal/policy/policy.go:136-138 | a concrete run with a narrower step falls below its window maximum |
| PolicyDecisions.RequirementsPrefix | controller/internal/policy/policy.go:112-119 | the requirement recorded for a workload depends on that workload alone, and prefixes of traces have prefixes of histories |
| PolicyDecisions.At | controller/internal/policy/policy.go:107-159 | decision number i depends on the workloads up to i only |
| PolicyDecisions.DecisionsChain | controller/internal/policy/policy.go:151-157 | decisions are numbered from 0 and each starts from the command of the one before |
| ForecastQuality.LeadCoverage | forecasts/mutations/tools/mutation_framework.py:73-107 | a perfect forecast at horizon h with a window longer than h covers the workload of every second s >= h from s - h through s |
| ForecastQuality.OracleRow | forecasts/mutations/tools/mutation_framework.py:101-107 | row i of the perfect forecast carries the value a horizon later, and past the end the last value |
| ForecastQuality.CommandsMonotone | forecasts/mutations/tools/mutation_framework.py:66-90 | pointwise larger forecasts give pointwise larger commands |
| ForecastQuality.CommandDistance | forecasts/mutations/tools/mutation_framework.py:73-90 | commands of two forecasts differ by at most the largest difference of their requirements so far |
| ForecastQuality.SameRegions | forecasts/mutations/tools/mutation_framework.py:73-90 | forecasts whose values need the same replicas, value by value, give decisions equal in every field but the workloads they report |
| ForecastQuality.Accounting | forecasts/mutations/tools/mutation_framework.py:184-186 | excess minus deficient replica-seconds is the difference of the command totals; disagreement seconds bound them from below and vanish iff the commands are equal |
| ForecastQuality.NothingDeficient | forecasts/mutations/tools/mutation_framework.py:186 | no replica-second is deficient iff the commands dominate the oracle's everywhere |
| ForecastQuality.OverForecastIsSafe | forecasts/mutations/tools/mutation_framework.py:184-186 | over-forecasting everywhere leaves no replica-second deficient |
| SafetyEngine.Validate | controller/internal/safety/safety.go:25-49 | accepts exactly the valid configurations |
| SafetyEngine.Engine.New | controller/internal/safety/safety.go:102-105 | an engine exists iff the configuration is valid, and starts with an empty history |
| SafetyEngine.Engine.Evaluate | controller/internal/safety/safety.go:119-149 | accepts exactly the valid observations with a predictive command in bounds, a listed Ready count and a servable demand; the decision says overload iff the demand exceeds the Ready capacity, protection needed iff it exceeds what the predictive command serves, and the fewest sufficient replicas; a rejected observation leaves every field unchanged |
| SafetyEngine.Engine.EvaluateDemand | safety-net/safety_reference.py:72-116 | the same with an optional demand: a missing one is no overload, needs the minimum and asks for no protection |
| SafetyEngine.WindowMeaning | controller/internal/safety/safety.go:119-125 | which windows are accepted, and what each reports, by comparison of the demand with listed capacities |
| SafetyWindows.DecisionMeaning | controller/internal/safety/safety.go:119-149 | after any accepted windows, in their own words: a decision triggers iff overload has lasted for the persistence seconds, an intervention is in force until at least one window and the hold seconds were calm (no trigger, demand within the predictive command), the floor is the greatest count its triggers need, and events, counter and remaining hold follow |
| SafetyEngine.Engine.Advance | controller/internal/safety/safety.go:126-138 | the counter, hold, floor and flag updates are one step of the state machine on the history |
| SafetyHistory.OverloadCounter | controller/internal/safety/safety.go:126 | the counter is the length of the overloaded run that ends the history |
| SafetyHistory.StepTriggers | controller/internal/safety/safety.go:126-127 | a window triggers iff the last P windows are all overloaded |
| SafetyHistory.Meaning | controller/internal/safety/safety.go:119-149 | over every history: active iff some trigger has not been followed by a full quiet block; the hold counter counts the quiet windows; the floor is the maximum of the minimum and the requirements of the live triggers |
| SafetyHistory.EventMeaning | controller/internal/safety/safety.go:128-138 | release is reported iff the window completes max(1, H) consecutive quiet windows; start and raise say exactly what happened to the intervention |
| ClosedLoop.Replay | safety-net/replay_expected_safety.py:13-24 | the replay equals the closed-loop recurrence from one Ready replica, with its two failures |
| ClosedLoop.WindowFacts | safety-net/replay_expected_safety.py:17-23 | in the loop overload is requirement above Ready, and a triggered window makes its requirement Ready for the next |
| ClosedLoop.RunTriggers | safety-net/safety_reference.py:80-82 | a window that ends P consecutive overloaded windows of the loop is triggered |
| ClosedLoop.RequirementClimbs | safety-net/replay_expected_safety.py:17-23 | past the persistence every further overloaded window needs at least one replica more |
| ClosedLoop.Completes | safety-net/replay_expected_safety.py:13-24 | with a full lookup the replay completes iff every demand is within the validated capacity and every predictive command within the bounds |
| ClosedLoop.CompletedBound | safety-net/replay_expected_safety.py:13-24 | under any valid configuration, no overloaded run of a replay that completes exceeds P - 1 plus the replicas left to add |
| ClosedLoop.OverloadBound | safety-net/replay_expected_safety.py:13-24 | every in-range demand and predictive trace completes, and no overloaded run exceeds P - 1 plus the replicas left to add |
| ClosedLoop.OverloadBoundFromMinimum | safety-net/replay_expected_safety.py:13-24 | for the replay as published, with a minimum of 1: every in-range trace completes with overloaded runs of at most P - 1 + (max - min) windows |
| ClosedLoop.OverloadSeconds | safety-net/replay_expected_safety.py:13-24 | the same bound in the configured seconds |
| ClosedLoop.SteadyOverloadBound | safety-net/replay_expected_safety.py:17-23 | every in-range trace completes, and an overloaded run in which demand does not rise is no longer than P |
| ClosedLoop.OverloadBoundReached | safety-net/replay_expected_safety.py:17-23 | for every valid configuration with a full lookup, room to scale and a first step that serves some demand, an explicit trace is overloaded for exactly P - 1 + (max - min) windows |
| ClosedLoop.OverloadBoundReachedIff | safety-net/replay_expected_safety.py:13-24 | with a full lookup and room to scale, some trace attains the bound iff the capacity of one replica above the minimum, plus the tolerance, is non-negative |
| Arbiter.Engine.New | controller/internal/arbiter/arbiter.go:33-36 | an arbiter exists iff 1 <= min <= initial <= max, and starts from the initial count with the minimum as floor |
| Arbiter.UpdateMeaning | controller/internal/arbiter/arbiter.go:45-49 | an update needs both inputs within the bounds, and its final is the larger of the two |
| Arbiter.Engine.UpdateLocked | controller/internal/arbiter/arbiter.go:45-52 | accepts iff both inputs are in bounds, takes the larger as final and reports the change; a refusal changes nothing |
| Arbiter.Engine.UpdatePredictive | controller/internal/arbiter/arbiter.go:38-40 | replaces the predictive command and keeps the floor |
| Arbiter.Engine.UpdateSafetyFloor | controller/internal/arbiter/arbiter.go:41-43 | replaces the floor and keeps the predictive command |
| Arbiter.Engine.Snapshot | controller/internal/arbiter/arbiter.go:54 | the three current values |
| Controller.ReadReadyReplicas | controller/internal/controller/controller.go:251-271 | the first successful answer among at most three attempts |
| Controller.FirstOfThree | controller/internal/controller/controller.go:251-271 | a count is read iff it is the first success within three attempts |
| Controller.Controller.Start | controller/internal/controller/controller.go:149-158 | control starts iff the Deployment has the configured initial count |
| Controller.Controller.ApplyFinalDecision | controller/internal/controller/controller.go:218-228 | logs the final, sends an update iff it differs, and succeeds iff no update was needed or it was acknowledged as sent |
| Controller.Controller.TickDecide | controller/internal/controller/controller.go:160-174 | the part of a tick before the lock is the decide step, with missing row and policy error told apart |
| Controller.Controller.CommitArbitrated | controller/internal/controller/controller.go:182-193 | the locked part of a tick is the commit step of the state machine |
| Controller.Controller.CommitDirectly | controller/internal/controller/controller.go:194-216 | without safety the policy's own action decides whether an update is sent |
| Controller.Controller.TickCommit | controller/internal/controller/controller.go:182-216 | with safety the commit is arbitrated, without it the policy's action decides; the loop goes on iff the commit succeeds |
| Controller.Controller.SafetyTick | controller/internal/controller/controller.go:230-249 | a safety observation is one observe step, and succeeds iff Ready was read, the observation accepted, its floor arbitrated and its final acknowledged or unneeded |
| Controller.Controller.Tick | controller/internal/controller/controller.go:160-216 | a tick is the decide step on the indexed row followed, if it succeeds, by the commit step |
| Controller.Controller.RunAfterPreflight | controller/internal/controller/controller.go:283-301 | over an accepted forecast and any valid configuration the loop ends without error only after one decision per row, and with a safety factor of at most 1 it ends with an error only after a failed or mismatched update |
| Controller.ContractIsServable | controller/cmd/predictive-autoscaler/main.go:47-51 | with a safety factor of at most 1 the policy serves everything the forecast contract admits |
| Controller.ContractProtectsPolicy | controller/cmd/predictive-autoscaler/main.go:47-51 | the forecast contract excludes every capacity error iff the safety factor is at most 1 |
| ControllerModel.RunKeeps | controller/internal/controller/controller.go:160-249 | every interleaving of ticks and observations keeps the joint invariant of policy, arbiter, log and Deployment |
| ControllerModel.Agreement | controller/internal/controller/controller.go:160-249 | between steps of any run of any valid configuration, whenever the last update sent was acknowledged as sent, the Deployment has the final in force: with safety the arbiter's, the larger of the last committed command and the floor it last accepted, without it the committed command |
| ControllerModel.FloorAgreement | controller/internal/controller/controller.go:230-249 | with equal minima and no observation beyond the maximum, the arbiter always has the floor that the observations so far imply, so its final is the larger of that floor and the committed command |
| ControllerModel.SafetyFinalAgrees | controller/internal/controller/controller.go:230-249 | under the same condition the final the safety engine reports on its own equals the arbitrated and logged one |
| ControllerModel.WriteLog | controller/internal/controller/controller.go:182-228 | for any valid configuration, with and without safety, the updates sent are the logged finals, from the initial count, without consecutive repeats, even past a failure |
| ControllerModel.UntriggeredSafetyIsInvisible | controller/internal/controller/controller.go:182-249 | with a safety minimum not above the policy's, a run in which no window triggers sends exactly the updates of the run without safety |
| ControllerModel.NeverStalls | controller/internal/controller/controller.go:160-174 | with accepted rows, in any interleaving, the tick loop goes on iff every commit's own update was unneeded or acknowledged as sent; lost safety updates never stop it |
| AgreementLimits.StepSends | controller/internal/controller/controller.go:218-228 | a step keeps the log so far, changes the Deployment only by sending an update, and reports that update by its own acknowledgement alone |
| AgreementLimits.AcknowledgedUpdateAgrees | controller/internal/controller/controller.go:218-228 | in every run the next update acknowledged as sent restores agreement, whatever was lost before; from an agreeing state an update ends agreement iff it is not acknowledged as sent |
| AgreementLimits.LostUpdateNotRetried | controller/internal/controller/controller.go:218-219 | in every run, while the final in force repeats, no update is sent and the Deployment stays where it was |
| AgreementLimits.LostUpdate | controller/internal/controller/controller.go:218-249 | a concrete run in which a lost safety update leaves the Deployment behind while ticks go on without an error |
| AgreementLimits.AcceptAgrees | controller/internal/controller/controller.go:235-236 | after an accepted window arbiter and safety engine share the floor iff it is within the arbiter's maximum, whatever was seen before |
| AgreementLimits.FloorsAgreeIff | controller/internal/controller/controller.go:230-249 | over all runs of a valid configuration, and over those with deliverable observations, they share the floor iff the minima are equal and, where any reachable command is within the safety bounds, no valid observation needs more than the policy's maximum |
| AgreementLimits.ExcessDeliverable | controller/internal/safety/observations.go:27-37 | the observations of the disagreeing run are consecutive windows of one run, as the observation store accepts them |
| AgreementLimits.WithinMaximumByCounts | controller/internal/safety/safety.go:60-72 | that condition as a comparison of observable rates with two lookup points |
| ControllerModel.ExactLookupIsWithin | controller/internal/safety/safety.go:45-47 | a lookup that ends at the maximum meets the condition |
| AgreementLimits.OversizedLookupDisagrees | controller/internal/safety/safety.go:45-47 | a concrete valid configuration and observation after which they disagree |
| AgreementLimits.HigherMinimumIsVisible | controller/internal/arbiter/arbiter.go:45-52 | a concrete run with a higher safety minimum in which nothing triggers and yet an update of the run without safety is not sent |
| Forecast.CheckRow | controller/internal/forecast/forecast.go:102-127 | the seven row checks together accept exactly the rows meeting the contract of their position, and the index stays exact |
| Forecast.Parse | controller/internal/forecast/forecast.go:57-134 | a forecast is accepted iff it is non-empty and row i meets its contract: issued at i times the interval, targeting one horizon later, within the maximum, of the expected trace and condition; the index is exactly the rows by offset |
| Observations.Store.constructor | controller/internal/safety/observations.go:22-25 | a store starts empty with latest sequence -1 |
| Observations.Store.Submit | controller/internal/safety/observations.go:27-37 | accepts exactly the next window of its own run, aligned to the interval; a refusal changes nothing |
| Observations.Store.Get | controller/internal/safety/observations.go:39-41 | the stored rows are exactly 0 to the latest sequence, in order of acceptance |
| Observations.Store.LatestSequence | controller/internal/safety/observations.go:43 | one less than the number of accepted windows |
| Observations.Store.WindowsTile | controller/internal/safety/observations.go:31-35 | every millisecond up to the end of the last accepted window lies in exactly one window, and no other in any |
| Observations.Accumulator.NoteDispatch | safety-net/dispatch_observer.py:22-26 | a dispatch is counted iff its second is non-negative and not closed |
| Observations.Accumulator.Finalize | safety-net/dispatch_observer.py:28-33 | only the next window closes, with exactly the dispatches of its second |
| Observations.Accumulator.Conserved | safety-net/dispatch_observer.py:22-33 | over every call sequence accepted dispatches equal the closed counts plus the pending ones |
| Observations.CloseAndSubmit | controller/internal/safety/observations.go:27-37 | a store of the same run and interval accepts every closed window in order, so it holds exactly the closed windows |
| RequestSchedule.Expand | workloads/tools/generate_workload_suite.py:177-195 | on every rate trace the loop yields the schedule of the carried remainder, in which a negative count schedules nothing |
| RequestSchedule.CarryIsNotYetDue | workloads/tools/generate_workload_suite.py:181-184 | on non-negative rates each second contributes what has become due, and the remainder is what is not yet due |
| RequestSchedule.CarryBelowOne | workloads/tools/generate_workload_suite.py:181-184 | on any rates, negative ones included, the remainder stays below one request on the side from which it was truncated |
| RequestSchedule.ScheduledRows | workloads/tools/generate_workload_suite.py:185-194 | on any rates every row carries the rate of its second and the number of requests in it, and its offset is within half a microsecond of the middle of its own slot |
| RequestSchedule.ScheduledTotal | workloads/tools/validate_workload_suite.py:89-96 | after every second the total is the floor of the cumulative target plus 1e-9, so drift stays below one request |
| RequestSchedule.ScheduleSpread | workloads/tools/validate_workload_suite.py:77-81 | with fewer than a million requests in each second, numbers run from 1 and offsets increase strictly inside their own second |
| RequestSchedule.SlotsIncrease | workloads/tools/generate_workload_suite.py:187 | half-even rounding keeps neighbouring slots of a second apart |
| RequestSchedule.SlotsFit | workloads/tools/generate_workload_suite.py:185-187 | all slots stay inside the second iff there are fewer than a million |
| SignFlip.ExactSignflip | analysis/tools/analyze_step18.py:34-42 | the mask loop counts the extreme sign vectors out of 2^n; no differences give no value |
| Ranks.RankIsAverage | analysis/tools/analyze_step18.py:26 | in every ascending arrangement the rank of a value is the average of the places it takes |
| Ranks.RankIncreases | analysis/tools/analyze_step18.py:26 | a larger value has a larger rank |
| Ranks.RanksTotal | analysis/tools/analyze_step18.py:26 | the ranks of n values, ties included, sum to n(n+1)/2 |
| SignFlip.SignedRankByPlace | analysis/tools/analyze_step18.py:37 | without ties the signed-rank statistic adds the places of the differences by magnitude, each with its sign |
| SignFlip.SlackIsHarmless | analysis/tools/analyze_step18.py:38-41 | for the signed-rank statistic the comparison with the slack of 1e-12 is the exact comparison |
| SignFlip.MeanIsAverage | analysis/tools/analyze_step18.py:37 | the mean statistic times the number of differences is their sum |
| SignFlip.MasksAreSigns | analysis/tools/analyze_step18.py:39-40 | the masks below 2^n enumerate every sign vector exactly once |
| SignFlip.Resolution | analysis/tools/analyze_step18.py:38-42 | for both statistics the extreme count is even and at least 2, so p is at least 2 / 2^n |
| SignFlip.NegationInvariant | analysis/tools/analyze_step18.py:38-42 | negating all differences leaves the value unchanged |
| SignFlip.Exact | analysis/tools/analyze_step18.py:38-42 | the test is exact: among the 2^n sign assignments at most a bound's worth have an extreme count within that bound |
| Holm.Adjust | analysis/tools/analyze_step18.py:55-60 | for any finite values the loop stores the capped running maximum of the multiplied values in order and leaves missing values missing |
| Holm.StepIsProduct | analysis/tools/analyze_step18.py:59 | the multiplied value at position j is (m - j) times the value there |
| Holm.OrderPreserved | analysis/tools/analyze_step18.py:57-59 | adjusted values follow the raw order and are the same for ties under every valid sorting |
| Holm.AtLeastRaw | analysis/tools/analyze_step18.py:59 | an adjusted value is at least the raw one and at most 1 |
| Holm.RejectsLikeStepDown | analysis/tools/analyze_step18.py:58-60 | for every alpha below 1, adjusted at most alpha iff the step-down procedure rejects |
| Holm.NoTrueRejection | analysis/tools/analyze_step18.py:55-60 | when no true hypothesis passes a Bonferroni test among the true ones, no true hypothesis is rejected |
| ForecastMutation.Mutate | forecasts/mutations/tools/mutation_framework.py:116-153 | the dictionary update fails iff the support is empty, a moving average reads a missing second or a value leaves the range, and otherwise every second present has its mutated value, rounded half to even; what the mutated value is, the laws below say |
| ForecastMutation.ContiguousIsDefined | forecasts/mutations/tools/mutation_framework.py:105-107 | on a forecast without gaps, as the perfect one is, no second is missing |
| ForecastMutation.ChangesOnlySupport | forecasts/mutations/tools/mutation_framework.py:116-153 | no second outside the declared support changes |
| ForecastMutation.BiasedValue | forecasts/mutations/tools/mutation_framework.py:121 | a bias is added on exactly the seconds of its interval |
| MutationLaws.MutatedInRange | forecasts/mutations/tools/mutation_framework.py:149-152 | the values of a successful mutation, after rounding, lie in the valid range |
| MutationLaws.ScaledDistance | forecasts/mutations/tools/mutation_framework.py:122-123 | scaling multiplies the distance from the baseline, up to the rounding; a value on the baseline stays and the factor 1 changes nothing |
| MutationLaws.ScalesCompose | forecasts/mutations/tools/mutation_framework.py:122-123 | two scalings from one baseline scale by the product of their factors, up to the two roundings |
| MutationLaws.Levels | forecasts/mutations/tools/mutation_framework.py:124-130 | a replacement puts exactly its interval at its value, shortening exactly the last seconds of the event at the baseline, extending exactly the seconds after the event at the peak |
| MutationLaws.Averaged | forecasts/mutations/tools/mutation_framework.py:140-146 | a moving average is the mean of the samples in its radius, ends repeated, up to the rounding, and lies between the least and the greatest of them |
| MutationLaws.EventShifted | forecasts/mutations/tools/mutation_framework.py:131-136 | a shifted event has the value of the shift earlier where that lies in the event and is present, and the least value of the forecast elsewhere in its support |
| MutationLaws.TraceShifted | forecasts/mutations/tools/mutation_framework.py:137-139 | a shifted trace has at every second the value of the shift earlier, ends repeated |
| ForecastMutation.ConstantTotals | forecasts/matched/tools/matching_framework.py:17-22 | a constant error over n values has n times its absolute and its squared error |
| ForecastMutation.BiasPairMatches | forecasts/matched/tools/matching_framework.py:66-70 | opposite biases on one interval have equal absolute and squared error totals and opposite signed error |
| ForecastMutation.ShapePairMatches | forecasts/matched/tools/matching_framework.py:90-95 | a smoothed forecast and its mirrored sharpening have equal error totals and opposite signed error, however the averages were rounded |
| ForecastMutation.TimingPairMatches | forecasts/matched/tools/matching_framework.py:56-60 | an event of any shape, shifted early and late by the same amount inside the trace, gives equal error totals and zero signed error |
| ForecastMutation.GlobalShiftMatches | forecasts/matched/tools/matching_framework.py:61-65 | a whole trace shifted early and late with clamped ends is accuracy-matched iff the repeated ends err by equal totals; the signed errors cancel up to the ends |
| ForecastMutation.OppositeResiduals | forecasts/matched/tools/matching_framework.py:17-22 | negated residuals have the same MAE and RMSE and opposite bias |
| ForecastMutation.RelativeDifferenceFacts | forecasts/matched/tools/matching_framework.py:12-14 | the relative difference is symmetric, within 0 and 2, 0 iff the accuracies are equal, and times their sum it is twice their distance |
| PairSelection.Match | forecasts/matched/tools/matching_framework.py:169-184 | fails iff no pair is eligible, and otherwise takes an eligible pair that no eligible pair precedes |
| PairSelection.EligibleMeaning | forecasts/matched/tools/matching_framework.py:169-180 | eligible iff the candidates share a trace, reach both minima, differ by at most the tolerated part of their average in both accuracies, and pass the gate |
| PairSelection.ChosenPrecedes | forecasts/matched/tools/matching_framework.py:181-184 | against every eligible pair the chosen one has less loss, or as much and is nearer to the preferred parameters, or as near and written shorter, or as short and earlier by identifiers |
| PairSelection.LossWeighs | forecasts/matched/tools/matching_framework.py:179 | the loss weighs each difference by its own tolerance, and no eligible pair loses more than 2 |
| PairSelection.LossZero | forecasts/matched/tools/matching_framework.py:179 | the loss is 0 iff both accuracies are equal |
| PairSelection.ExactPairWins | forecasts/matched/tools/matching_framework.py:179-184 | when an exactly matched pair is eligible the chosen pair is exactly matched |
| Campaign.Manager.Next | experiments/primary/tools/campaign.py:20-23 | the first run in matrix order that is neither valid nor being executed |
| Campaign.Manager.SetPaused | experiments/primary/tools/campaign.py:39-42 | pausing always succeeds, resuming iff no attempt is active; the new state is that of the command |
| Campaign.Manager.ClaimNext | experiments/primary/tools/campaign.py:45-54 | a claim succeeds iff none of its four refusals applies, and then claims the next run |
| Campaign.Manager.StartAttempt | experiments/primary/tools/campaign.py:55-60 | a start succeeds iff the attempt is the active, claimed one |
| Campaign.Manager.FinishAttempt | experiments/primary/tools/campaign.py:61-70 | a finish succeeds iff the attempt is the active one and an invalid result has a reason; CampaignHistory.PausedMeaning says that the campaign is then paused until a resume |
| Campaign.StepKeepsLedger | experiments/primary/tools/campaign.py:37-70 | every command keeps the ledger, and the frontier moves exactly when an attempt ends valid |
| Campaign.Ledger | experiments/primary/tools/campaign.py:20-70 | over every command sequence the valid runs are a prefix, later runs are untouched, attempts are numbered 1..n, only the last can be valid, invalid ones have a reason, and the one in progress is the active one |
| Campaign.AttemptsAccounted | experiments/primary/tools/campaign.py:45-70 | attempts = valid + invalid + aborted + (1 if active), and the valid attempts are as many as the valid runs |
| CampaignHistory.PausedMeaning | experiments/primary/tools/campaign.py:39-42 | over every command sequence the campaign is paused iff it began so, or a pause or the end of an attempt was carried out, and no resume since |
| CampaignHistory.ResumeBeforeClaim | experiments/primary/tools/campaign.py:46-70 | no claim is carried out while the campaign is paused, so after the end of an attempt none without a resume in between |
| CampaignHistory.FinishBetween | experiments/primary/tools/campaign.py:41-70 | between two claims, and between a claim and a resume, an attempt is finished |
| CampaignHistory.ClaimTakesNext | experiments/primary/tools/campaign.py:45-54 | a claim takes the first run that is not valid, as its next attempt, and only if it is the one asked for |
| CampaignHistory.FinishedForever | experiments/primary/tools/campaign.py:61-70 | the result and reason of a finished attempt stay on record whatever follows |
| CampaignHistory.StartedOnce | experiments/primary/tools/campaign.py:55-60 | an attempt is started at most once |
| Episodes.Intervals | forecasts/mutations/tools/mutation_framework.py:156-164 | for seconds in any order and with repeats, the result is ordered, non-adjacent and covers exactly the given seconds |
| Episodes.EpisodesOf | processing/tools/process_step17.py:29-34 | the flag loop with its sentinel yields the same maximal runs, of the flagged seconds |
| Episodes.MaximalRuns | forecasts/mutations/tools/mutation_framework.py:159-164 | the scan of an ascending list yields ordered, non-empty, non-adjacent runs that cover exactly its seconds |
| Episodes.Unique | processing/tools/process_step17.py:29-34 | separated runs are determined by the seconds they cover |
| Episodes.BuildEvents | processing/tools/process_step17.py:44-56 | one event per onset (or peak), ending at its first ending label or before the next event; events are disjoint and in order |
| Episodes.StartsAre | processing/tools/process_step17.py:45-46 | events start at exactly the transition onsets; only without any onset, at exactly the peaks |
| Episodes.EventDeficit | processing/tools/process_step17.py:108-127 | the deficit of an event is that of its own seconds, both ends included |
| Episodes.EventDeficitsBounded | processing/tools/process_step17.py:108-127 | deficient replica-seconds summed over disjoint events never exceed those of the run |
| Episodes.ActionsBalance | processing/tools/process_step17.py:35-37 | every action is an up or a down, and churn covers the net change with the same parity |
| Episodes.OneWayActions | processing/tools/process_step17.py:35-37 | a series that never falls has no action down and churns by its net change; likewise the other way |
| Episodes.ActionsSplit | processing/tools/process_step17.py:35-37 | cutting a series at a shared second splits its actions and its churn |

## Left out

- Kubernetes calls, HTTP handlers, JSON and CSV decoding, files, clocks, timers and retry delays: a scale call is a reply that fails or acknowledges a count, a Ready read is a list of attempts, forecast rows arrive parsed.
- IEEE rounding, NaN and infinity: RPS are exact reals (micro-RPS integers for mutations) and 1e-9 is a constant.
- Machine integer widths: counts and offsets are unbounded.
- Concurrent observation POSTs: one publisher is assumed, so observations are evaluated in the order in which they are accepted.
- Log record text, hashes, metadata, plots, reports, identifiers and request-id formatting.
- Logger errors: a write to the log always succeeds, whereas in the source a failed log write ends a tick.
- Context cancellation between ticks and between Ready reads.
- Bootstrap intervals, effect sizes, correlations and everything random.
- The copies of the safety and campaign tools under experiments/safety; each is modelled once.
- Event details other than the windows (onset detection, recovery, latency summaries).
- Candidate grids, candidates dropped for leaving 0 to 65 RPS, and the comparison and rejection tables.
- The constructor checks of the offline policy configuration: `OraclePolicy` asks only for a positive interval, a non-negative window and a non-negative down-step.
- PolicyModel.ClosedForm: stated for unlimited scale-up; PolicyModel.StepLimitMatters carries it over to every up-step that spans the bounds, and shows that for narrower ones the invariant it rests on is false.
- PolicyModel.NeverBelowWindow: stated for unlimited scale-up, for the same reason.
- PolicyRules.DeployedPeak: stated for unlimited scale-up, for the same reason; PolicyRules.DeployedRules covers every up-step.
- PolicyRules.OfflineRules: asks for lookup counts that never fall and bounds in order, as the offline validation does (forecasts/oracle/tools/policy.py:19-36).
- ForecastQuality.LeadCoverage: stated for unlimited scale-up, for the same reason; decisions are taken once per second.
- PolicyAgreement.FourWays: the decisions of engines and replays are equal where the up-step spans the reachable commands, because the two replays know no limit; PolicyAgreement.UnlimitedIff shows that this is exact.
- ForecastReplay.Desired: takes the lookup in the order given, whereas the source sorts it first; validated lookups are sorted.
- ControllerModel.Agreement: the Deployment is claimed only while the last update sent was acknowledged as sent; AgreementLimits.AcknowledgedUpdateAgrees shows what else would happen.
- ControllerModel.UntriggeredSafetyIsInvisible: stated for a safety minimum not above the policy's; AgreementLimits.HigherMinimumIsVisible shows that it can fail otherwise.
- ControllerModel.FloorAgreement: stated for equal minima and observations within the maximum; AgreementLimits.FloorsAgreeIff has the exact condition.
- Controller.Controller.RunAfterPreflight: the method runs ticks without observations in between; ControllerModel.NeverStalls covers the interleaved runs.
- SafetyEngine.Engine.EvaluateDemand: the deployed evaluation and the reference share this body, because their updates are the same statements; the deployed one adds the observation check.
- ClosedLoop.Replay: reads one predictive column; the choice of the column by pair identifier is not modelled.
- Holm.Adjust: takes the order of the present p-values as a parameter; every ordering a sort may return, with ties in any order, is covered.
- SignFlip.ExactSignflip: takes finite differences and returns the extreme count and 2^n instead of their quotient.
- PairSelection.Match: the semantic gate and the distance from the preferred parameters are arbitrary functions of the two candidates, and identifiers and parameter lengths are numbers.
- SignFlip.SignedRankByPlace: stated without ties; Ranks.RankIsAverage says what ties share.
- MutationLaws.TraceShifted: stated for forecasts without gaps, where a position in the list is a second.
- ForecastMutation.Mutate: the base forecast has at least one second, a scale factor is a fraction, and the unsupported-kind error cannot be written in the model.
- Campaign.Manager.StartAttempt: a run without a record is refused, where the source would stop with a lookup error; neither changes the state.
- Campaign.Manager.FinishAttempt: a reason is blank when it holds only spaces, tabs and line ends, whereas the source strips every kind of white space.
