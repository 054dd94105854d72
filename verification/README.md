# Linux Practice Lab: verified models

Linux Practice Lab is a desktop application that teaches Linux inside a small virtual machine. This
project models the parts of it that hold algorithms or state machines, and proves what they promise:

| file | what it models |
|---|---|
| `Redact.dfy` | masking credentials in a transcript line, as text and as a loop over UTF-8 byte indices |
| `Catalog.dfy` | loading the lesson catalogue, its integrity check and the search for prerequisite cycles |
| `Mastery.dfy`, `GuidedPath.dfy` | the mastery ladder, which lessons are open, "Continue", the curriculum order check |
| `ProgressStore.dfy` | the lesson rows of the progress database under any sequence of calls |
| `Registry.dfy`, `LessonScript.dfy` | the validator registry check in Rust and its independently written TypeScript twin |
| `Validation.dfy` | running a task's validators, nested ones included, and scoring the result |
| `ControlChannel.dfy` | application and guest agent exchanging numbered frames, as a step relation over all runs |
| `AgentClient.dfy` | the client's request loop, its single retry and the wait for a booting guest |
| `VmLifecycle.dfy` | the virtual machine manager and the session start with its one-time fallback |
| `RuntimeInstall.dfy` | stage, verify, decompress, verify again, swap; with every crash point |
| `Firewall.dfy` | the line scanner for `nft list ruleset` against the structured ruleset |
| `ShellQuote.dfy` | shell quoting against a lexer for the POSIX quoting rules |
| `ProcessTree.dfy` | the bounded walk that hides the agent's own processes |
| `Prelude.dfy`, `Text.dfy` | options, results, and the string functions of the Rust standard library that are used |

Disk, sockets, clocks, processes, hashing, decompression, SQL and the checks that shell out are
parameters or nondeterministic choices. Code that updates state in place is a class or a method
with loops, tied to a specification function or to a property; the lemmas beside it say what that
function is worth.

Main results, each for every input, run or reachable state:

- The cycle search terminates, reports only real cycles without repeated lessons, and every cycle
  passes through the closing edge of a reported one; so it reports nothing exactly when there is none.
  A list is reported as often as the prerequisite that closes it is listed, and no two different lists
  are closed by the same edge. A catalogue can be finished in Guided Path from nothing if and only if it
  has no dangling prerequisite and no cycle, and in such a catalogue nobody ever gets stuck.
- Redaction is exactly what its rules say, stated without the scan: at a key the text up to the value is
  copied and the mask stands for the value; after a `:` blanks are passed over and only a quote or a shell
  separator ends the value, after a `=` white space ends it too; any other character is copied.
- In a redacted line every key occurrence, overlapping ones included, has the mask or an empty value;
  those lines are exactly the fixed points; every key of the input is reached by the scan, ends with a
  reached key, or lies inside a hidden value; a hidden value does not influence the output; no slice of
  the byte loop ever cuts a character.
- In every run of the control channel ids are 1, 2, 3 and so on, an envelope is handled at most once,
  and a caller gets the guest's answer to its own envelope, unless the reply carries id 0. That can
  still happen to somebody exactly while a torn frame is at the guest, a garbled one is still to be
  read, or the error for one is on its way.
- A session start launches at most twice, never with two live processes, and falls back at most once
  per run of the application; no lesson starts on a used disk layer, and the sandbox is kept; what
  the guest answers decides how it ends. If the host does not fail and no process exits on its own, it
  is refused exactly when a machine is running and the pid file does not get that machine killed. It
  falls back, or ends with a guest that is never ready, only if the host failed, a process exited or a
  wait ran out of time. The pid of the machine is recorded unless writing it failed.
- An installation that succeeds leaves a runtime of the required version, and one of another version is
  never taken for it. At every step of an installation the live directory is the old one, partly or
  wholly removed, or completely verified. What it installs is recognised by the next start exactly under two conditions
  on the manifest, both of which an installable bundle can break.
- The depth of a printed firewall listing is 0 exactly where tables end, if and only if no table closes
  itself early.
- Where the TypeScript check reports nothing, the Rust check accepts exactly the validators without
  four recognisable peculiarities: how a number is written or how large it is, a bare leading `o`, an
  inherited parameter name, and a nested type that is not a string. Conversely it reports nothing for what
  the Rust check accepts, if that is nested at most three deep and its patterns and modes are the script's;
  and for validators of any kind it is stated exactly what it reports.
- A task passes if and only if everything it demands, at every nesting depth, is met one after the other;
  and then exactly the listed validators were evaluated, were well formed and passed.
- A lesson row says exactly what happened to the lesson, and a lesson once open stays open.

Where the code and its documentation differ, the model follows the code:

- `crates/lesson-engine/src/catalog.rs:207` says that each cycle is reported once. It is if and only
  if the prerequisite that closes it is listed once, so always in a catalogue where no lesson lists a
  prerequisite twice (`LessonCatalog.PrerequisiteCycles`). A lesson that lists itself twice is reported
  twice (`LessonCatalog.ARepeatedPrerequisiteRepeatsTheReport`).
- The case at `crates/lesson-engine/src/progression.rs:217-227` suggests that a lesson in need of
  review unlocks its successors. Only status `passed` does, and the store writes `needs-review` for
  weak mastery (`crates/progress-store/src/lib.rs:170-174`). So a lesson completed after a failed
  attempt or a shown solution unlocks nothing, unless it was passed before
  (`ProgressStore.CompletionPasses`); restarting the lesson clears its attempts
  (`apps/desktop/src-tauri/src/commands.rs:785`), and completing it then can pass it.
- `apps/desktop/src-tauri/src/agent.rs:126-127` says that stale replies are skipped rather than
  mistaken for the answer. A reply under id 0 is never skipped, so after a frame that broke off a
  later request can receive the error meant for it (`ControlChannel.ATornFrameAnswersAnotherRequest`);
  `ControlChannel.MisleadsExactlyWhenTainted` says from which states.
- The stale-process check at the start of a session (`apps/desktop/src-tauri/src/commands.rs:207-212`)
  is for what an unclean shutdown left behind. On Windows it kills the application's own running
  virtual machine if and only if the pid file names it (`VmLifecycle.VmManager.Doomed`) and the host does
  not fail, and the session then starts instead of being refused; any other running machine is spared,
  and the start is refused. Elsewhere nothing is killed (`crates/vm-manager/src/process.rs:161-165`), and
  the record is cleared all the same (`crates/vm-manager/src/lib.rs:145`).
- The comments at `crates/runtime-manager/src/integrity.rs:115-117` reserve the full check for first
  runs and upgrades. If the manifest lists the compressed image as required, or gives the image two
  sizes, every start installs again (`RuntimeInstall.SomeInstallationsAreNotRecognised`).

The quoting rules are those of sections 2.2, 2.2.1 and 2.2.2 of the POSIX Shell Command Language.

## Model

| member | source | states |
|---|---|---|
| `Redaction.RedactLine` | crates/progress-store/src/redact.rs:37-84 | the byte-index loop ends and returns the scan of the line as text, which is the line as the rules describe it, for arbitrary UTF-8 |
| `Redaction.RedactIsDescribed` | crates/progress-store/src/redact.rs:42-82 | a text is the redacted line if and only if it copies everything but values, and has the mask for each value that is not empty, headers up to a quote or shell separator, assignments up to white space too |
| `Redaction.ScanOnce` | crates/progress-store/src/redact.rs:43-81 | one iteration appends what the scan appends and stops on a character boundary further on; both slices have boundaries as ends |
| `Redaction.LocateValue` | crates/progress-store/src/redact.rs:49-70 | the byte span of a value is the encoding of its character span, header rule included |
| `Redaction.FindKeyIsFirstMatch` | crates/progress-store/src/redact.rs:43-46 | comparing bytes, ASCII case aside, finds the key that comparing characters finds |
| `Redaction.MatchReflects` | crates/progress-store/src/redact.rs:31-36 | masking never creates a key occurrence where the line had none |
| `Redaction.RedactIsClean` | crates/progress-store/src/redact.rs:42-82 | every key occurrence in the output, overlapping ones included, is followed by exactly the mask or by an empty value |
| `Redaction.FixedExactlyWhenClean` | crates/progress-store/src/redact.rs:37-84 | a line is left unchanged if and only if it gives no value away |
| `Redaction.RedactIsIdempotent` | crates/progress-store/src/redact.rs:34-36 | redacting twice is redacting once |
| `Redaction.OrdinaryLineUnchanged` | crates/progress-store/src/redact.rs:3-5 | a line without a key comes out as it went in |
| `Redaction.EveryKeyIsCovered` | crates/progress-store/src/redact.rs:42-82 | every key occurrence of the input is reached by the scan, ends where a reached key ends, or lies inside a value that a reached key hides |
| `Redaction.HiddenValueDoesNotShow` | crates/progress-store/src/redact.rs:48-76 | replacing a value the scan hides by any other one without its terminators gives the identical output |
| `Redaction.ShippedPolicyIsShaped` | crates/progress-store/src/redact.rs:8-20 | the shipped key list and mask have the shape that all of this rests on |
| `LessonCatalog.CycleSearch.constructor` | crates/lesson-engine/src/catalog.rs:215-217 | the search starts with nothing marked, stacked or reported |
| `LessonCatalog.CycleSearch.Visit` | crates/lesson-engine/src/catalog.rs:219-251 | a visit terminates, restores the stack, finishes the lesson unless it was open, changes no mark that was there and leaves only finished lessons besides, reports a back edge if the lesson was open, and keeps the search invariant |
| `LessonCatalog.CycleSearch.Explore` | crates/lesson-engine/src/catalog.rs:240-250 | an unmarked lesson and everything new below it ends up finished, with the stack and all earlier marks as before, and the search invariant kept |
| `LessonCatalog.CycleSearch.FollowAll` | crates/lesson-engine/src/catalog.rs:242-248 | every prerequisite of the lesson on top of the stack is followed, each once and in order; by the search invariant each is then missing, finished, or its edge closes a reported cycle |
| `LessonCatalog.CycleSearch.Follow` | crates/lesson-engine/src/catalog.rs:243-247 | one more prerequisite is followed and counted; missing ones are passed over; by the search invariant it is missing, finished, or its edge closes a reported cycle |
| `LessonCatalog.CycleSearch.Enter` | crates/lesson-engine/src/catalog.rs:240-241 | marks the lesson open and stacks it; open lessons are exactly those on the stack |
| `LessonCatalog.CycleSearch.Leave` | crates/lesson-engine/src/catalog.rs:249-250 | pops the lesson and marks it done, when each of its edges is settled |
| `LessonCatalog.CycleSearch.ReportBackEdge` | crates/lesson-engine/src/catalog.rs:228-236 | the search invariant, with one more prerequisite followed: the reported list is a cycle without repeated lessons, closed by the edge just followed, and occurs as often as that prerequisite has been followed |
| `LessonCatalog.WalkDescends` | crates/lesson-engine/src/catalog.rs:219-251 | along edges that close no reported cycle lessons finish ever earlier |
| `LessonCatalog.PrerequisiteCycles` | crates/lesson-engine/src/catalog.rs:207-257 | every reported list is a cycle, every cycle passes through the closing edge of a reported one, and nothing is reported if and only if there is no cycle, self-loops included; each list is reported as often as its closing prerequisite is listed, so none twice if and only if each of those is listed once |
| `LessonCatalog.ReportedOnceExactly` | crates/lesson-engine/src/catalog.rs:207-251 | each cycle is reported once if and only if the prerequisite that closes it is listed once |
| `LessonCatalog.NothingRepeatsReport` | crates/lesson-engine/src/catalog.rs:207-251 | where no lesson lists a prerequisite twice, lists reported as often as listed are all different |
| `LessonCatalog.ARepeatedPrerequisiteRepeatsTheReport` | crates/lesson-engine/src/catalog.rs:207-237 | in the catalogue of one lesson that lists itself twice, the search reports the same cycle twice |
| `LessonCatalog.PrerequisiteIssues` | crates/lesson-engine/src/catalog.rs:127-140 | reports exactly the prerequisites that do not exist and the lesson itself |
| `LessonCatalog.ValidatorIssues` | crates/lesson-engine/src/catalog.rs:142-151 | reports exactly the registry errors of the lesson's validators, with the task's id |
| `LessonCatalog.DuplicateIssues` | crates/lesson-engine/src/catalog.rs:153-161 | reports exactly the task ids that occur more than once |
| `LessonCatalog.ModuleIssues` | crates/lesson-engine/src/catalog.rs:171-178 | reports exactly the modules without lessons |
| `LessonCatalog.IntegrityIssues` | crates/lesson-engine/src/catalog.rs:123-181 | every issue is a real defect, every defect other than a cycle is reported, and nothing is reported if and only if the catalogue is consistent |
| `LessonCatalog.AddPackage` | crates/lesson-engine/src/catalog.rs:69-99 | succeeds if and only if every listed lesson has a file with its own id and this module and none is there already; then adds exactly those, extending the teaching order only for core packages |
| `LessonCatalog.CoreLessonsInOrder` | crates/lesson-engine/src/catalog.rs:92-94 | the teaching order is that of the core packages' lists, package by package |
| `LessonCatalog.LastManifestCounts` | crates/lesson-engine/src/catalog.rs:97-98 | of the manifests with one id the last is the module |
| `LessonCatalog.Load` | crates/lesson-engine/src/catalog.rs:60-119 | succeeds if and only if there are packages, they are in order, and the catalogue they make, lessons and modules, is consistent; what is loaded is that catalogue; otherwise the issues are real and, cycles aside, complete |
| `GuidedPath.UnlockedMeansPrerequisitesPassed` | crates/lesson-engine/src/progression.rs:77-102 | a lesson is unlocked in Guided Path if and only if every prerequisite has status passed |
| `GuidedPath.OnlyGuidedPathLocks` | crates/lesson-engine/src/progression.rs:92-96 | a lesson is locked only in Guided Path |
| `GuidedPath.MissingInOrder` | crates/lesson-engine/src/progression.rs:77-90 | the prerequisites reported missing are those not passed, in the order listed |
| `GuidedPath.UnlockedIsMonotone` | crates/lesson-engine/src/progression.rs:77-102 | passing more lessons never locks one |
| `GuidedPath.ConsistentIsSound` | crates/lesson-engine/src/catalog.rs:123-181 | no integrity issue means that all prerequisites exist and there is no cycle |
| `GuidedPath.NeverStuck` | crates/lesson-engine/src/progression.rs:77-102 | in such a catalogue, whatever has been passed, if a lesson is left then one that is left is unlocked |
| `GuidedPath.CanFinish` | crates/lesson-engine/src/progression.rs:77-102 | from any progress a schedule of lessons, each unlocked when its turn comes, passes everything, in as many steps as lessons are left |
| `GuidedPath.FinishableExactlyWhenSound` | crates/lesson-engine/src/catalog.rs:121-140 | a catalogue can be finished from nothing if and only if no prerequisite dangles and there is no cycle |
| `GuidedPath.ContinueIsOpenExactlyInOrder` | crates/lesson-engine/src/progression.rs:104-116 | Continue offers an unlocked lesson for every progress if and only if each prerequisite of a core lesson is a core lesson taught earlier |
| `GuidedPath.ContinueVisitsInOrder` | crates/lesson-engine/src/progression.rs:104-116 | passing what Continue offers goes through exactly the unpassed core lessons in teaching order and then ends in none |
| `GuidedPath.OrderCheck` | scripts/validate-lessons.ts:576-597 | reports exactly the core lessons with a prerequisite later in the teaching order, a lesson listed twice standing at its last place |
| `GuidedPath.OrderCheckIsCoreInOrder` | scripts/validate-lessons.ts:576-597 | the order holds if and only if the check is silent, core lessons ask only for core lessons, and none asks for itself |
| `Mastery.LessonMasteryPasses` | crates/lesson-engine/src/hints.rs:101-122 | a lesson's mastery is at least passed if and only if something was attempted and every recorded attempt passed without its solution; hints never matter |
| `Mastery.LessonRungs` | crates/shared-types/src/progress.rs:32-53 | mastered if and only if every task passed without a hint or its solution, at least strong if and only if with at most one hint each, and review required if and only if a task of an assessment never passed |
| `Mastery.MoreHintsNeverRaise` | crates/lesson-engine/src/hints.rs:108-117 | the same attempts with more hints never reach a higher rung |
| `ProgressStore.Store.StartLesson` | crates/progress-store/src/lib.rs:114-126 | inserts an in-progress row or touches the existing one, keeping its first start |
| `ProgressStore.Store.CompleteLesson` | crates/progress-store/src/lib.rs:154-203 | keeps and returns the better mastery and leaves every other row alone |
| `ProgressStore.Store.RecordLessonAttempt` | crates/progress-store/src/lib.rs:205-216 | counts one attempt |
| `ProgressStore.Store.AddHintUsed` | crates/progress-store/src/lib.rs:218-229 | counts one hint |
| `ProgressStore.RowIsSummary` | crates/progress-store/src/lib.rs:114-229 | after any sequence of calls a row is told from the lesson's history alone: best mastery, passed if and only if that is at least passed, its score, attempts, hints, first start, first completion |
| `ProgressStore.RunKeepsRowsOk` | crates/progress-store/src/lib.rs:114-229 | in every run status and score agree with the stored mastery, and completion time with its presence |
| `ProgressStore.RunNeverTakesBack` | crates/progress-store/src/lib.rs:164-203 | mastery, score, counters, the solution flag and status passed never go back; first start and completion times never change |
| `ProgressStore.OpenLessonsStayOpen` | apps/desktop/src-tauri/src/commands.rs:66-77 | a lesson that Guided Path has opened stays open through every further call |
| `ProgressStore.CompletionPasses` | apps/desktop/src-tauri/src/commands.rs:580-613 | the lesson is stored as passed if and only if it was, or every recorded attempt passed without its solution |
| `ValidatorRegistry.CheckIsWellFormedness` | crates/shared-types/src/registry.rs:149-282 | the check accepts a validator if and only if it and everything nested in it, at every depth, is well formed on its own |
| `ValidatorRegistry.CheckParamsIsValues` | crates/shared-types/src/registry.rs:190-199 | the early-returning loop accepts exactly lists whose every value fits its specification and whose nested validators are well formed |
| `ValidatorRegistry.WellFormedUnfolds` | crates/shared-types/src/registry.rs:233-242 | well-formedness at every depth is the node's own and that of its children |
| `ValidatorRegistry.CheckBlamesTheFirst` | crates/shared-types/src/registry.rs:149-282 | the error is about the first thing wrong, in this order: kind, unknown parameter, missing parameter, none of several, value; and in nested lists about the first entry |
| `LessonScript.Report.CheckValidator` | scripts/validate-lessons.ts:154-203 | pushes exactly the specified problems, in order, behind those already there |
| `LessonScript.Report.CheckParamValue` | scripts/validate-lessons.ts:205-290 | pushes exactly the problems of one value, as specified |
| `LessonScript.SilentExactlyWhenTaken` | scripts/validate-lessons.ts:154-290 | nothing is reported if and only if at every depth the validator is declared and implemented, has what is required, is nested at most three deep, and each value is of its kind, such as a whole number from 1 to 65535 |
| `LessonScript.ReportedExactlyWhenClaimed` | scripts/validate-lessons.ts:154-290 | a problem is reported if and only if what it names is wrong with the validator or one nested in it, at every depth |
| `LessonScript.ModesAgree` | scripts/validate-lessons.ts:251-257 | of the modes the script lets through, the Rust parser rejects exactly those with a bare leading `o` |
| `LessonScript.ValuesAgree` | crates/shared-types/src/registry.rs:203-282 | where the script accepts a value, Rust does if and only if it is a 64-bit whole number written as one, `-0` excepted, has no such mode, and lists validators with string types |
| `LessonScript.ScriptImpliesRegistryCheck` | scripts/validate-lessons.ts:154-290 | where the script reports nothing, the Rust check accepts if and only if every validator in the tree is free of these peculiarities and of inherited parameter names |
| `LessonScript.RegistryCheckImpliesSilence` | scripts/validate-lessons.ts:154-290 | what the Rust check accepts the script reports nothing for, if it is nested at most three deep, every pattern compiles and every mode has the script's shape |
| `LessonScript.TwinsAgreeExactly` | scripts/validate-lessons.ts:154-290 | silent in the script and free of these peculiarities if and only if the Rust check accepts, nesting is at most three deep, every pattern compiles and every mode has the script's shape |
| `LessonScript.TwinsPart` | scripts/validate-lessons.ts:192-248 | a mode `o644`, every whole number written as a fraction, as `-0` or beyond 64 bits, a parameter named `constructor`, and a nested type that is not a string but turns into the name of a validator pass the script and are refused by Rust |
| `TaskValidation.OverridesKeepTheVerdict` | guest/linuxlab-agent/src/validators/args.rs:118-136 | author overrides never change a pass, failure or error, nor the text of a pass or an error; a plain failure gets the author's message and known category; the author's weight is taken, moved into 1 to 100 |
| `TaskValidation.SideEffectExists` | guest/linuxlab-agent/src/validators/script.rs:523-585 | the loop over nested validators computes the recursive evaluation: it stops at a malformed one and goes on past failures |
| `TaskValidation.PassesExactlyWhenFulfilled` | guest/linuxlab-agent/src/validators/mod.rs:86-108 | a check passes if and only if it is well formed and its handler passes, or its command finishes and each validator in `then` passes in turn on the world the one before left |
| `TaskValidation.ErrsExactly` | guest/linuxlab-agent/src/validators/script.rs:523-570 | a check errs if and only if the registry refuses it, its handler is missing or errs, its command cannot be run, or the command finishes and `then` is no list of validators |
| `TaskValidation.FailuresDoNotStop` | guest/linuxlab-agent/src/validators/script.rs:552-570 | every entry ahead of the first malformed one is evaluated, whatever failed before it |
| `TaskValidation.PassedMeansAllMet` | guest/linuxlab-agent/src/validators/mod.rs:86-108 | a check passes only if it and everything nested in it, exactly and at every depth, was evaluated, well formed and passed |
| `TaskValidation.ValidateTask` | guest/linuxlab-agent/src/validators/mod.rs:137-148 | evaluates the validators in order on the world each leaves behind; a pass means at least one validator and everything demanded met in turn, and conversely |
| `TaskValidation.PercentIsNearest` | crates/shared-types/src/validation.rs:143-149 | the percentage is within half a point of the exact ratio; it is 100 if and only if at most half a point is missing, and 0 if and only if less than half a point was earned |
| `TaskValidation.FixingACheckEarnsItsWeight` | crates/shared-types/src/validation.rs:143-149 | making a failing check pass earns exactly its weight and never lowers the percentage |
| `TaskValidation.ScoreIsSound` | crates/shared-types/src/validation.rs:138-170 | the percentage is at most 100, is 100 on a pass and 0 when nothing passed, and the 32-bit sums hold up to 42949672 outcomes |
| `TaskValidation.FailedTaskCanShowFull` | crates/shared-types/src/validation.rs:145-150 | a failed task can still show 100 percent |
| `TaskValidation.PrimaryFailureIsActionable` | crates/shared-types/src/validation.rs:152-158 | a failure is shown if and only if something did not pass; it is the first of its kind, and an errored check is shown only when nothing else failed |
| `ControlChannel.ConstantTimeEq` | guest/linuxlab-agent/src/main.rs:153-163 | the accumulated difference is zero if and only if the byte strings are equal |
| `ControlChannel.Session` | guest/linuxlab-agent/src/main.rs:107-150 | one reply per frame that is not blank, in order, with the frame's id or 0 if it cannot be parsed; only requests with the right token reach the handler; the session ends early if and only if a line is not UTF-8 or a reply cannot be written |
| `ControlChannel.StepKeeps` | apps/desktop/src-tauri/src/agent.rs:104-147 | every step of callers, wire and guest, guest sessions that end with part of a frame buffered included, keeps the invariant of the channel |
| `ControlChannel.EveryRunCorrelates` | apps/desktop/src-tauri/src/agent.rs:104-147 | in every run of fewer than 2^64 requests ids count up from 1, an envelope is handled at most once, and a caller gets the guest's answer to its own envelope, or under id 0 the malformed-frame error |
| `ControlChannel.MisleadsExactlyWhenTainted` | apps/desktop/src-tauri/src/agent.rs:126-147 | from any reached state, with no frame torn or split from then on, some continuation returns a reply under id 0 if and only if a torn frame is at the guest, a garbled one is still to be read, or the error for one is on its way |
| `ControlChannel.TaintedMisleads` | apps/desktop/src-tauri/src/agent.rs:141-143 | gives that continuation, with one more request |
| `ControlChannel.RunKeepsUntainted` | guest/linuxlab-agent/src/main.rs:136-143 | without torn or split frames an untainted state stays untainted, and no reply under id 0 is returned |
| `ControlChannel.WholeFramesGetTheirOwnAnswer` | guest/linuxlab-agent/src/main.rs:118-144 | with no frame torn or split every response is the guest's own answer to the caller's own envelope |
| `ControlChannel.OwnReplyIsFound` | apps/desktop/src-tauri/src/agent.rs:126-147 | a request whose own reply, or one under id 0, has fewer than eight stale ones ahead returns it |
| `ControlChannel.EightStaleRepliesEndARequest` | apps/desktop/src-tauri/src/agent.rs:126-147 | with eight stale replies ahead a request fails, and what is left stays for the next one |
| `ControlChannel.ATornFrameAnswersAnotherRequest` | apps/desktop/src-tauri/src/agent.rs:141-143 | a run in which a request the guest answered is told that its frame was malformed |
| `AgentClient.Client.TryRequest` | apps/desktop/src-tauri/src/agent.rs:104-147 | at most one frame goes on the wire, the eight reads are never used up, the response is the one to that frame, and there is one unless the channel failed |
| `AgentClient.Client.AwaitReply` | apps/desktop/src-tauri/src/agent.rs:126-146 | with at most one stale reply ahead, the own reply is found within two reads; the first line with the own id or id 0 ends the loop |
| `AgentClient.Client.Request` | apps/desktop/src-tauri/src/agent.rs:82-102 | at most two frames, both for this request, never more than two unanswered on a connection, the response is the one to the last frame, and an error means that the channel failed twice |
| `AgentClient.Client.WaitUntilReady` | apps/desktop/src-tauri/src/agent.rs:42-79 | only a pong ends the wait well, a connection that failed once is not used again, and giving up takes all attempts |
| `VmLifecycle.VmManager.constructor` | crates/vm-manager/src/lib.rs:63-79 | stopped, without process or configuration, on the machine preferred for the acceleration |
| `VmLifecycle.VmManager.UseSoftwareAcceleration` | crates/vm-manager/src/lib.rs:127-136 | afterwards software translation on q35 |
| `VmLifecycle.VmManager.ReapStaleProcess` | crates/vm-manager/src/lib.rs:139-147 | on success the pid file is gone and, on Windows only, exactly the recorded process is killed; on failure nothing changes; failing takes Windows; nothing of ours is left alive if and only if nothing was or the pid file named the supervised process on Windows |
| `VmLifecycle.VmManager.Prepare` | crates/vm-manager/src/lib.rs:150-188 | the configuration names the machine and acceleration in force, a lesson has a clean disk layer and the sandbox is kept; a failure keeps the old configuration |
| `VmLifecycle.VmManager.EnsureOverlay` | crates/vm-manager/src/overlay.rs:70-75 | an existing layer is kept, a missing one created clean |
| `VmLifecycle.VmManager.RecreateOverlay` | crates/vm-manager/src/overlay.rs:78-84 | on success the layer is clean; no other layer is touched |
| `VmLifecycle.VmManager.Busy` | crates/vm-manager/src/lib.rs:192-197 | a launch is refused if and only if a process is supervised that is alive or cannot be asked; an exited one is cleared |
| `VmLifecycle.VmManager.Start` | crates/vm-manager/src/lib.rs:191-227 | refuses beside a live process, otherwise leaves at most the launched process alive, recorded unless writing the record failed, or none if it could not be started; counts a lesson on a used layer |
| `VmLifecycle.VmManager.Launch` | crates/vm-manager/src/lib.rs:198-226 | the process is supervised, and recorded unless writing the record failed; or nothing runs and the state stays starting |
| `VmLifecycle.VmManager.PollExited` | crates/vm-manager/src/lib.rs:240-272 | an exit clears handle and pid file and fails the machine; any other answer changes nothing |
| `VmLifecycle.VmManager.Stop` | crates/vm-manager/src/lib.rs:281-317 | nothing without configuration or process; otherwise no process, no pid file, stopped |
| `VmLifecycle.App.WaitForGuest` | apps/desktop/src-tauri/src/commands.rs:326-354 | ends with a pong or not ready; not ready takes a failure of the host, an exit or running out of time; the process is still supervised, or it is gone with its pid file |
| `VmLifecycle.App.FirstLaunch` | apps/desktop/src-tauri/src/commands.rs:200-246 | one launch whose port and token the agent client has, or an error that leaves agent, session and launches alone; unless the host fails, a process exits or the lesson is unknown, it is refused if and only if a machine is running that the pid file does not get killed |
| `VmLifecycle.App.PrepareAndStart` | apps/desktop/src-tauri/src/commands.rs:216-246 | one launch for the given session, or an error without one; unless the host fails or a process exits, it is refused if and only if a process is alive |
| `VmLifecycle.App.AwaitGuest` | apps/desktop/src-tauri/src/commands.rs:254-287 | either the first machine's answer stands, or it ran on hardware, was not ready, and there was one retry |
| `VmLifecycle.App.Boot` | apps/desktop/src-tauri/src/commands.rs:200-287 | the launches, answers and acceleration of a session start up to the guest's last word |
| `VmLifecycle.App.FallBack` | apps/desktop/src-tauri/src/commands.rs:262-287 | the first machine is stopped; at most one launch, in software on q35 |
| `VmLifecycle.App.Conclude` | apps/desktop/src-tauri/src/commands.rs:289-323 | a pong makes the session ready; anything else leaves failed, no process, no pid file, no agent client |
| `VmLifecycle.App.StartSession` | apps/desktop/src-tauri/src/commands.rs:195-324 | at most two launches, never two live processes, the second in software on q35 and only once per application run; no lesson on a used disk layer, and the sandbox kept; the guest's answers decide the result, unless the host fails, the lesson is unknown or a machine was running; a running machine is refused if and only if the pid file does not get it killed, unless the host fails, a process exits or the lesson is unknown; each result ends in a determined state; on success the pid file names the process unless writing it failed; falling back or never being ready takes a failure, an exit or running out of time |
| `VmLifecycle.SessionDegrades` | apps/desktop/src-tauri/src/commands.rs:254-287 | over a whole run no launch on hardware follows one in software |
| `RuntimeInstall.Verify` | crates/runtime-manager/src/integrity.rs:106-157 | one verdict per entry, and the report is healthy if and only if every entry is intact and can be read |
| `RuntimeInstall.VerifyQuick` | crates/runtime-manager/src/integrity.rs:118-134 | healthy if and only if every entry has its size or is optional and absent |
| `RuntimeInstall.VerdictsInPlainWords` | crates/runtime-manager/src/integrity.rs:136-157 | what each verdict says of the file |
| `RuntimeInstall.InstalledRuntimeIsComplete` | crates/runtime-manager/src/install.rs:78-84 | true if and only if the live manifest is the required version's and the quick check is healthy: each file it lists is there in its size, or optional and not there |
| `RuntimeInstall.CompleteInPlainWords` | crates/runtime-manager/src/install.rs:78-84 | complete means that the manifest read through the live place has the required version and that each file it lists is there in its size, or optional and not there |
| `RuntimeInstall.Disk.CopyDirectory` | crates/runtime-manager/src/install.rs:152-179 | on success the staging directory is the bundle, file for file, without links or devices |
| `RuntimeInstall.Disk.Materialise` | crates/runtime-manager/src/install.rs:121-138 | the image is unpacked and its compressed copy gone, with every other packaged file still intact |
| `RuntimeInstall.Disk.StageAndVerify` | crates/runtime-manager/src/install.rs:86-150 | unless the disk fails, success if and only if the bundle can be installed; then staging is what the bundle unpacks to; the live directory is untouched at every step |
| `RuntimeInstall.BundleInPlainWords` | crates/runtime-manager/src/install.rs:86-150 | a bundle can be installed if and only if it is plain files, of the required version, each entry but the materialised image's intact or optional, and its image unpacks to what the first, required entry of that image says |
| `RuntimeInstall.Disk.RemoveStagingDir` | crates/runtime-manager/src/install.rs:181-196 | links are refused, and the live directory is untouched at every step |
| `RuntimeInstall.Disk.InstallRuntime` | crates/runtime-manager/src/install.rs:30-76 | at every step the live directory is the old one, partly or wholly removed, or completely verified; each result says which; a success leaves the required version with the files its manifest lists; already installed is the answer if and only if that held before and nothing was forced; unless the disk fails, a bundle that can be installed is installed, links aside |
| `RuntimeInstall.UnpackedIsVerified` | crates/runtime-manager/src/install.rs:86-150 | what an installable bundle unpacks to has passed every check on what stays |
| `RuntimeInstall.InstalledIsHealthy` | crates/runtime-manager/src/install.rs:99-148 | after an installation full verification succeeds if and only if the compressed image is optional and all entries of the image agree |
| `RuntimeInstall.HealthyIsQuickHealthy` | crates/runtime-manager/src/integrity.rs:104-134 | full verification implies the quick one |
| `RuntimeInstall.InstalledIsRecognisedExactly` | crates/runtime-manager/src/install.rs:78-84 | an installation is recognised by the next unforced start, which does nothing, if and only if every entry of the compressed image is optional and all entries of the image ask for one size |
| `RuntimeInstall.SomeInstallationsAreNotRecognised` | crates/runtime-manager/src/install.rs:99-138 | for every codec and image both conditions fail for bundles that can be installed: with the compressed image required, or with a second entry of the image that asks for another size |
| `FirewallScan.ExtractBlock` | guest/linuxlab-agent/src/validators/network.rs:511-548 | the loop over lines keeps exactly what the line-by-line scan keeps |
| `FirewallScan.ScanTable` | guest/linuxlab-agent/src/validators/network.rs:517-545 | a printed table is scanned from depth 0 back to depth 0, keeping exactly its named part |
| `FirewallScan.ScanChain` | guest/linuxlab-agent/src/validators/network.rs:530-541 | a printed chain is kept whole if its table and name are asked for, and not at all otherwise |
| `FirewallScan.ExtractsTheNamedBlocks` | guest/linuxlab-agent/src/validators/network.rs:511-548 | for every printed ruleset, the lines kept, one by one |
| `FirewallScan.TableStaysOpen` | guest/linuxlab-agent/src/validators/network.rs:536-545 | between a table's first and last line the depth is above 0, if and only if it is so throughout what the table lists before its chains |
| `FirewallScan.DepthIsZeroExactlyAtTableEnds` | guest/linuxlab-agent/src/validators/network.rs:536-545 | after any number of lines of a listing the depth is 0 exactly if a table ends there, if and only if no table closes itself early |
| `FirewallScan.ScanDepth` | guest/linuxlab-agent/src/validators/network.rs:536-538 | the scanner's depth is that of the lines alone |
| `FirewallScan.KeptRulesAreTheChainsRules` | guest/linuxlab-agent/src/validators/network.rs:511-548 | the rules among them are exactly those of the chains with the requested name in the requested tables, in order |
| `ShellQuoting.LexEscaped` | guest/linuxlab-agent/src/validators/script.rs:267-270 | inside quotes the escaped text reads as the text |
| `ShellQuoting.CommandRoundTrip` | guest/linuxlab-agent/src/validators/script.rs:211-226 | the shell splits the command into exactly the path and the arguments, whatever their characters |
| `ShellQuoting.CommandIsInjective` | guest/linuxlab-agent/src/validators/script.rs:226-226 | different invocations are different command lines |
| `ProcessTree.CandidateProcesses` | guest/linuxlab-agent/src/validators/process.rs:46-65 | removes exactly the agent and the processes within four parent links of it, parent cycles included, keeping the order |
| `ProcessTree.FilterKeepsOrder` | guest/linuxlab-agent/src/validators/process.rs:62-64 | what is kept stays in its place |
| `ProcessTree.StoppingEarlyIsComplete` | guest/linuxlab-agent/src/validators/process.rs:57-59 | the early break happens only when the set already holds the agent's whole tree |
| `ProcessTree.FourGenerationsSuffice` | guest/linuxlab-agent/src/validators/process.rs:50-51 | the whole tree is removed if and only if nothing hangs five links down and no nearer |

## Left out

- Redaction of whole transcripts: splitting into lines and joining again is not idempotent, since a trailing empty line is lost each time.
- The hint totals: hints are added when revealed and again on completion, so no counted-once claim holds.
- `ControlChannel.EveryRunCorrelates`: says nothing beyond 2^64 - 1 requests on one client, where the id counter wraps.
- `ControlChannel.MisleadsExactlyWhenTainted`: a frame cut exactly before its newline counts as torn, although the guest would still read it at the end of the port.
- `ControlChannel.Session`: the JSON of frames is a datatype, and the handler is a function of the requests carried out so far.
- `AgentClient.Client.Request`: is about one caller at a time with replies to a replaced socket discarded, and a write that fails puts nothing on the wire; any number of callers, late replies and torn frames are in `ControlChannel`.
- `AgentClient.Client.WaitUntilReady`: the deadline is a number of attempts.
- `VmLifecycle.App.StartSession`: one session start at a time, interleaved only with processes exiting; overlapping starts, pausing, the console, snapshots, and the wording of errors are left out, and removing the pid file is assumed to succeed.
- `VmLifecycle.VmManager.Prepare`: two lessons whose ids become one file name share a layer in the code, not in the model.
- `VmLifecycle.VmManager.Stop`: terminating a supervised process is assumed to end it, as the job object and kill-on-drop are there to ensure; no process outlives the application.
- `RuntimeInstall.Disk.InstallRuntime`: a directory is the map of the files below it, so empty directories, paths that differ only in case, and a plain file in a directory's place are not told apart; creating the parent directory is assumed to succeed.
- `RuntimeInstall.Verify`: hashing, decompression and parsing the manifest are arbitrary functions.
- `TaskValidation.ValidateTask`: the leaf validators that call systemctl, dig, curl, nft or dpkg are one arbitrary function of the world; messages, observed and expected texts are shortened or dropped.
- `TaskValidation.PercentIsNearest`: the floating-point quotient is taken as exact and rounded half up.
- `LessonScript.ScriptImpliesRegistryCheck`: whether a pattern compiles, and the property key a value that is not a string turns into, are arbitrary functions; numbers beyond the double range are not distinguished.
- `ValidatorRegistry.CheckIsWellFormedness`: reading the registry and the validators from JSON.
- `LessonCatalog.Load`: finding, reading and sorting the module directories; the packages come sorted as the code sorts them.
- `ProgressStore.RowIsSummary`: SQL, the other tables, and resetting a profile.
- `FirewallScan.ExtractsTheNamedBlocks`: handles, comments that hold braces, and tables that list something after their chains.
- `ShellQuoting.CommandRoundTrip`: the lexer gives no result for double quotes, expansions, operators and comments, none of which a quoted command contains.
- Review recommendations, mastery percentages, guidance texts, lesson content, QEMU argument strings and path layout, which would only add easy members.
