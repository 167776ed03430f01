# Progress reporting and semantic-token checking in the Eclipse JDT language server

This project is a Dafny model of two small pieces of the Eclipse JDT
language server.

**The progress-reporter state machine** lives in `ProgressReporterManager`.
The workspace runs jobs, and each job gets a monitor. A monitor turns the
job's calls into "Work Done Progress" notifications, as section "Work Done
Progress" of the Language Server Protocol 3.15 defines them:

- `window/workDoneProgress/create` opens a progress stream with the client;
- `$/progress` then carries `begin`, `report` and `end` on that stream.

A reporter holds one job's state and handles its calls:

- the handlers `beginTask`, `setTaskName`, `subTask`, `worked`, `done` and `setCanceled`;
- the completion of the create request, called "the handshake" below.

Before the handshake, nothing is sent. A `done` that comes before the
handshake is answered at the handshake with a single `end`. Otherwise the
handshake sends `begin`, and later calls send throttled `report`s.

Each handler is a pure step `(reporter, call, now, delay) -> (reporter,
notifications)` (`ProgressReporting.Step`). A run is a sequence of timed calls
(`ProgressTraces.Run`). The laws of the protocol are lemmas over every run.

The module `Multicast` models the multicast monitor, which forwards every
call to its members in list order. `ReporterFactory` models the manager's
choice of monitor. `LegacyStatus` models the legacy status channel as pure
message selection, since nothing in the manager calls it.

Java `int` arithmetic is modelled exactly (`JavaInt`):

- the work counter wraps at 32 bits;
- the percentage uses truncating division and a wrapping multiply.

**The semantic-token checker** is the `TokenAssertionHelper` of the semantic
tokens test. It reads the relative integer encoding of section "Semantic
Tokens", "Integer Encoding for Tokens", of the Language Server Protocol 3.16.
The encoding uses five integers per token, and start positions are relative
to the previous token.

- `SemanticTokens` models decoding, filtering, `assertNextToken` and `endAssertion`.
- `Encode` is the protocol's encoding, written as an independent reference, and is proved inverse to decoding.
- `ModifierBits` models the modifier bit set read with `>>>`.

## Behaviour that follows the code

In several places the code behaves differently from what a reader of the
Eclipse `IProgressMonitor` contract might expect. The model follows the code
in each case:

- `beginTask` does not reset the work done. It attempts a throttled `report`, not a `begin`: a `begin` only ever comes from the handshake.
- `worked` adds negative deltas unchanged, and the sum wraps at 32 bits. Nothing clamps it.
- `done` on a ready reporter sends an `end` every time it is called, not once.
- The percentage is `progress / totalWork * 100` with the division first. One unit of four is 0 %, not 25 %, and every value is a multiple of 100 unless the multiply overflows.
- Calls after `done` are not ignored. Being done lifts the throttle, so every later `beginTask`, `subTask` or `worked` on a ready reporter sends a `report`. The one exception is a null or empty `subTask` under the task "Importing Maven project(s)", which returns before the throttle.
- The handshake callback runs whether the create request succeeded or failed. A failed request therefore behaves like a successful one, and the reporter does not stay pending.
- The server-status reporter of an initialization job is itself a full reporter with its own progress stream. It is bound to no job.

## Model

| member | source | states |
|---|---|---|
| JavaInt.Add | org.eclipse.jdt.ls.core/src/org/eclipse/jdt/ls/core/internal/handlers/ProgressReporterManager.java:241 | Java `int` addition: the exact sum when it fits, otherwise the sum shifted by 2^32 into range |
| JavaInt.Mul | org.eclipse.jdt.ls.core/src/org/eclipse/jdt/ls/core/internal/handlers/ProgressReporterManager.java:267 | Java `int` multiplication: the exact product when it fits, and in every case congruent to it modulo 2^32 |
| JavaInt.Quot | org.eclipse.jdt.ls.core/src/org/eclipse/jdt/ls/core/internal/handlers/ProgressReporterManager.java:267 | division rounding toward zero: the remainder has the dividend's sign and is smaller than the divisor, and the quotient is no larger than the dividend in magnitude |
| JavaInt.Div | org.eclipse.jdt.ls.core/src/org/eclipse/jdt/ls/core/internal/handlers/ProgressReporterManager.java:267 | Java `int` division: the truncated quotient whenever it fits, `Integer.MIN_VALUE` for the one quotient that does not (`MIN_VALUE / -1`), and the mathematical quotient for non-negative operands |
| ProgressReporting.NewReporter | org.eclipse.jdt.ls.core/src/org/eclipse/jdt/ls/core/internal/handlers/ProgressReporterManager.java:165-214 | a new reporter has its create request outstanding, is not ready, not canceled, not done, has never reported and has no percentage |
| ProgressReporting.PercentDone | org.eclipse.jdt.ls.core/src/org/eclipse/jdt/ls/core/internal/handlers/ProgressReporterManager.java:262-268 | no percentage exactly when the total is below two; 0 while the work is at least 0 and below the total; for any work, negative included, the quotient truncated toward zero times 100, exact whenever that product fits in an `int` and wrapped modulo 2^32 when it does not; a multiple of 100 for non-negative work whose product fits; 100 from the total up to twice the total |
| ProgressReporting.NegativeWorkIsZeroPercent | org.eclipse.jdt.ls.core/src/org/eclipse/jdt/ls/core/internal/handlers/ProgressReporterManager.java:267 | negative work of less than the total reports 0 %, because the division truncates toward zero |
| ProgressReporting.Step | org.eclipse.jdt.ls.core/src/org/eclipse/jdt/ls/core/internal/handlers/ProgressReporterManager.java:184-286 | one handler call: only the handshake speaks before the client is ready; at most one notification on the reporter's own stream; `begin` exactly at a first handshake on an unfinished task, `end` exactly at `done` when ready or at a first handshake on a finished task, `report` exactly when a ready reporter's report-attempting call passes the throttle; their contents; no field changes but the handler's own, and the throttle clock moves only with a report |
| ProgressReporting.IsDonePersists | org.eclipse.jdt.ls.core/src/org/eclipse/jdt/ls/core/internal/handlers/ProgressReporterManager.java:239-260 | a done reporter stays done under any call except one that changes the total, subtracts work or overflows the counter |
| ProgressReporting.BeginTaskKeepsProgress | org.eclipse.jdt.ls.core/src/org/eclipse/jdt/ls/core/internal/handlers/ProgressReporterManager.java:223-227 | `beginTask` leaves the work done as it was |
| ProgressReporting.DoneTwiceSendsTwoEnds | org.eclipse.jdt.ls.core/src/org/eclipse/jdt/ls/core/internal/handlers/ProgressReporterManager.java:246-255 | on a ready reporter, each of two `done` calls sends an `end` |
| ProgressReporting.WorkAfterEndIsReported | org.eclipse.jdt.ls.core/src/org/eclipse/jdt/ls/core/internal/handlers/ProgressReporterManager.java:271-285 | after `done`, further work on a ready reporter is still reported, whatever the clock says |
| ProgressReporting.SubTaskAfterDoneSilent | org.eclipse.jdt.ls.core/src/org/eclipse/jdt/ls/core/internal/handlers/ProgressReporterManager.java:230-237 | after `done` under the Maven import task, a ready reporter stays silent on a sub-task exactly when it is null or empty |
| ProgressReporting.OneOfFourIsZeroPercent | org.eclipse.jdt.ls.core/src/org/eclipse/jdt/ls/core/internal/handlers/ProgressReporterManager.java:267 | one unit of work out of four reports 0 % |
| ProgressReporting.PercentOverflows | org.eclipse.jdt.ls.core/src/org/eclipse/jdt/ls/core/internal/handlers/ProgressReporterManager.java:267 | with 42949674 units done of a total of 2, the quotient times 100 leaves the `int` range and the percentage wraps to a negative value that is not a multiple of 100 |
| ProgressTraces.RunSplits | org.eclipse.jdt.ls.core/src/org/eclipse/jdt/ls/core/internal/handlers/ProgressReporterManager.java:216-286 | a run over two call sequences is the run over the first followed by the run over the second from where the first left off |
| ProgressTraces.RunConsistent | org.eclipse.jdt.ls.core/src/org/eclipse/jdt/ls/core/internal/handlers/ProgressReporterManager.java:169-202 | every run from a new reporter keeps its invariant: silent until the handshake, then either a single `end` or a leading `begin`, one stream, and the throttle clock equal to the time of the last report |
| ProgressTraces.ReadinessLaw | org.eclipse.jdt.ls.core/src/org/eclipse/jdt/ls/core/internal/handlers/ProgressReporterManager.java:194-274 | in every run no `report` comes before the `begin`, a `begin` only ever comes first, and a run that does not open with a `begin` is a single `end` |
| ProgressTraces.PendingIsSilent | org.eclipse.jdt.ls.core/src/org/eclipse/jdt/ls/core/internal/handlers/ProgressReporterManager.java:246-274 | calls before the handshake send nothing and leave the reporter pending |
| ProgressTraces.TerminatedIsSilent | org.eclipse.jdt.ls.core/src/org/eclipse/jdt/ls/core/internal/handlers/ProgressReporterManager.java:184-192 | after a handshake that found the task done, no call ever sends anything and the reporter never becomes ready |
| ProgressTraces.DoneBeforeHandshake | org.eclipse.jdt.ls.core/src/org/eclipse/jdt/ls/core/internal/handlers/ProgressReporterManager.java:184-192 | a task done before the handshake produces exactly one `end`, at the handshake, and nothing else whatever follows |
| ProgressTraces.ThrottleSpacing | org.eclipse.jdt.ls.core/src/org/eclipse/jdt/ls/core/internal/handlers/ProgressReporterManager.java:275-285 | a report on an unfinished task that follows a report sent at a nonzero time comes at least the throttle delay later |
| ProgressTraces.ProgressIsWrappedSum | org.eclipse.jdt.ls.core/src/org/eclipse/jdt/ls/core/internal/handlers/ProgressReporterManager.java:239-243 | the work counter after any run is the starting value plus every `worked` delta, negative ones included, wrapped to 32 bits |
| Multicast.Broadcast | org.eclipse.jdt.ls.core/src/org/eclipse/jdt/ls/core/internal/handlers/ProgressReporterManager.java:99-157 | a call other than a handshake reaches every member, each member moves exactly as it would alone, and the multicast sends at most one notification per member |
| Multicast.EmittedOnMemberStreams | org.eclipse.jdt.ls.core/src/org/eclipse/jdt/ls/core/internal/handlers/ProgressReporterManager.java:92-157 | every notification of a multicast is on one of its members' streams |
| Multicast.BroadcastInOrder | org.eclipse.jdt.ls.core/src/org/eclipse/jdt/ls/core/internal/handlers/ProgressReporterManager.java:117-122 | members are served in list order: forwarding to a concatenation sends what the first part sends, then what the second part sends |
| Multicast.AllCanceled | org.eclipse.jdt.ls.core/src/org/eclipse/jdt/ls/core/internal/handlers/ProgressReporterManager.java:106-115 | the multicast is canceled exactly when every member is, so an empty multicast is canceled |
| Multicast.SetCanceledAgrees | org.eclipse.jdt.ls.core/src/org/eclipse/jdt/ls/core/internal/handlers/ProgressReporterManager.java:131-136 | after `setCanceled(b)` the multicast reports `b`, except that an empty multicast reports canceled |
| Multicast.DoneReachesEveryMember | org.eclipse.jdt.ls.core/src/org/eclipse/jdt/ls/core/internal/handlers/ProgressReporterManager.java:99-104 | after `done` every member is done and every ready member's `end` is among the notifications sent |
| Multicast.EmittedByMember | org.eclipse.jdt.ls.core/src/org/eclipse/jdt/ls/core/internal/handlers/ProgressReporterManager.java:99-157 | whatever a member sends for a call is among what the multicast sends |
| ReporterFactory.CreateMonitor | org.eclipse.jdt.ls.core/src/org/eclipse/jdt/ls/core/internal/handlers/ProgressReporterManager.java:58-71 | an initialization job gets a multicast of a new server-status reporter and a new reporter bound to the job, in that order; any other job gets one new reporter bound to it |
| ReporterFactory.DefaultMonitor | org.eclipse.jdt.ls.core/src/org/eclipse/jdt/ls/core/internal/handlers/ProgressReporterManager.java:73-76 | the default monitor is one new plain reporter bound to no job, pending and not done |
| ReporterFactory.ProgressGroup | org.eclipse.jdt.ls.core/src/org/eclipse/jdt/ls/core/internal/handlers/ProgressReporterManager.java:82-85 | a progress group is the default monitor |
| ReporterFactory.Handle | org.eclipse.jdt.ls.core/src/org/eclipse/jdt/ls/core/internal/handlers/ProgressReporterManager.java:58-67 | a single monitor handles a call or its handshake as its reporter does; a multicast moves every member by a call, and by a handshake moves only that member and sends only what it sends; the member count never changes |
| ReporterFactory.CreatedMonitorsStartPending | org.eclipse.jdt.ls.core/src/org/eclipse/jdt/ls/core/internal/handlers/ProgressReporterManager.java:58-71 | every monitor the factory creates is silent for any call but the handshake and starts not canceled |
| ReporterFactory.InitializationOpensTwoStreams | org.eclipse.jdt.ls.core/src/org/eclipse/jdt/ls/core/internal/handlers/ProgressReporterManager.java:58-64 | an initialization job's two streams open on their own handshakes, in either order, each with one empty `begin` |
| ReporterFactory.StatusStreamWaitsForItsHandshake | org.eclipse.jdt.ls.core/src/org/eclipse/jdt/ls/core/internal/handlers/ProgressReporterManager.java:58-64 | while only the job stream's handshake has completed, nothing is sent on the status stream |
| LegacyStatus.TaskLabel | org.eclipse.jdt.ls.core/src/org/eclipse/jdt/ls/core/internal/handlers/ProgressReporterManager.java:306 | the label is never blank: the task name unless blank, else the job's name unless missing or blank, else "Background task" |
| LegacyStatus.SubTaskText | org.eclipse.jdt.ls.core/src/org/eclipse/jdt/ls/core/internal/handlers/ProgressReporterManager.java:326-329 | the sub-task name, or the empty text when there is none |
| LegacyStatus.StatusMessage | org.eclipse.jdt.ls.core/src/org/eclipse/jdt/ls/core/internal/handlers/ProgressReporterManager.java:312-343 | a plain reporter joins "task - subtask" exactly for a Maven import with a sub-task, prefixes a percentage of its work and total to the sub-task text exactly when it has a positive total otherwise, and is the bare sub-task text when not; the server-status reporter always says it is starting, carries its work and total, and adds " - subtask" only when it has a positive total and a sub-task |
| LegacyStatus.SendStatus | org.eclipse.jdt.ls.core/src/org/eclipse/jdt/ls/core/internal/handlers/ProgressReporterManager.java:301-353 | a plain reporter sends a progress report only to a client that supports them, carrying its stream, label, sub-task, total, work, completion and message; the server-status reporter always sends a starting status whose message is its own formatted message |
| LegacyStatus.SendProgress | org.eclipse.jdt.ls.core/src/org/eclipse/jdt/ls/core/internal/handlers/ProgressReporterManager.java:288-299 | system jobs and the blocked-job message are never sent; otherwise the throttle decides; passing it moves the throttle clock even when no status follows, and what is sent is exactly what `sendStatus` sends for the reporter with the moved clock |
| LegacyStatus.LegacyStatusIsThrottled | org.eclipse.jdt.ls.core/src/org/eclipse/jdt/ls/core/internal/handlers/ProgressReporterManager.java:288-299 | after a status goes out, an unfinished reporter sends no further status until the throttle delay has passed |
| LegacyStatus.JoinedStatusSplits | org.eclipse.jdt.ls.core/src/org/eclipse/jdt/ls/core/internal/handlers/ProgressReporterManager.java:312-313 | a Maven import status with a sub-task is the task, the separator, then the sub-task, which can be read back from it |
| ModifierBits.Decode | org.eclipse.jdt.ls.tests/src/org/eclipse/jdt/ls/core/internal/commands/SemanticTokensCommandTest.java:281-292 | index `i` is decoded exactly when bit `i mod 32` of the unsigned value is set |
| ModifierBits.DecodeEncode | org.eclipse.jdt.ls.tests/src/org/eclipse/jdt/ls/core/internal/commands/SemanticTokensCommandTest.java:284 | a set of indices below 32 encoded as a sum of powers of two decodes back to itself |
| ModifierBits.EncodeDecode | org.eclipse.jdt.ls.tests/src/org/eclipse/jdt/ls/core/internal/commands/SemanticTokensCommandTest.java:284 | every `int`, negative ones included, is the encoding of its decoded 32 bits |
| SemanticTokens.Advance | org.eclipse.jdt.ls.tests/src/org/eclipse/jdt/ls/core/internal/commands/SemanticTokensCommandTest.java:229-235 | a zero line delta moves along the line; any other moves down and takes the column as absolute |
| SemanticTokens.LineIsDeltaSum | org.eclipse.jdt.ls.tests/src/org/eclipse/jdt/ls/core/internal/commands/SemanticTokensCommandTest.java:229-235 | the line after `k` tokens is the sum of their line deltas |
| SemanticTokens.PositionsOrdered | org.eclipse.jdt.ls.tests/src/org/eclipse/jdt/ls/core/internal/commands/SemanticTokensCommandTest.java:225-235 | with non-negative deltas, decoded starts never move backwards in (line, column) order |
| SemanticTokens.DecodeOfEncode | org.eclipse.jdt.ls.tests/src/org/eclipse/jdt/ls/core/internal/commands/SemanticTokensCommandTest.java:219-235 | decoding the protocol's relative encoding of any tokens gives the tokens back |
| SemanticTokens.EncodeOfDecode | org.eclipse.jdt.ls.tests/src/org/eclipse/jdt/ls/core/internal/commands/SemanticTokensCommandTest.java:219-235 | encoding the tokens decoded from any data of whole tokens gives the data back |
| SemanticTokens.BeginAssertion | org.eclipse.jdt.ls.tests/src/org/eclipse/jdt/ls/core/internal/commands/SemanticTokensCommandTest.java:199-205 | an assertion session starts exactly when the data holds five integers per token, at the first token and the origin |
| SemanticTokens.ModifierMismatch | org.eclipse.jdt.ls.tests/src/org/eclipse/jdt/ls/core/internal/commands/SemanticTokensCommandTest.java:281-292 | no mismatch exactly when every legend modifier is encoded iff it is expected; a mismatch names the first modifier that disagrees |
| SemanticTokens.ReadToken | org.eclipse.jdt.ls.tests/src/org/eclipse/jdt/ls/core/internal/commands/SemanticTokensCommandTest.java:219-237 | reading a token succeeds exactly when its deltas are non-negative and its length positive, and then moves one token on, to its decoded start |
| SemanticTokens.Seek | org.eclipse.jdt.ls.tests/src/org/eclipse/jdt/ls/core/internal/commands/SemanticTokensCommandTest.java:215-248 | a successful seek moves forward over the same data and filter and keeps the position equal to the decoded start |
| SemanticTokens.SeekSelects | org.eclipse.jdt.ls.tests/src/org/eclipse/jdt/ls/core/internal/commands/SemanticTokensCommandTest.java:237-248 | a seek passes over well-formed tokens the filter skips and stops at a well-formed token it selects |
| SemanticTokens.SeekRunsOut | org.eclipse.jdt.ls.tests/src/org/eclipse/jdt/ls/core/internal/commands/SemanticTokensCommandTest.java:215-248 | a seek that runs out of tokens passed over only well-formed skipped ones |
| SemanticTokens.SkippedRangeEach | org.eclipse.jdt.ls.tests/src/org/eclipse/jdt/ls/core/internal/commands/SemanticTokensCommandTest.java:239-248 | a range of tokens is skipped exactly when each of its tokens is well formed and outside the filter |
| SemanticTokens.AssertNextToken | org.eclipse.jdt.ls.tests/src/org/eclipse/jdt/ls/core/internal/commands/SemanticTokensCommandTest.java:215-249 | a passing assertion moves forward and returns the decoded token just read |
| SemanticTokens.AssertNextTokenChecks | org.eclipse.jdt.ls.tests/src/org/eclipse/jdt/ls/core/internal/commands/SemanticTokensCommandTest.java:215-292 | a passing assertion skipped only filtered-out tokens and stopped at a selected, well-formed token of the expected type with exactly the expected modifiers; a missing token means all remaining ones were skipped |
| SemanticTokens.CheckedTokenWasEncoded | org.eclipse.jdt.ls.tests/src/org/eclipse/jdt/ls/core/internal/commands/SemanticTokensCommandTest.java:219-247 | on an encoded token list, the token an assertion checks is the one encoded at that place |
| SemanticTokens.SeekReaches | org.eclipse.jdt.ls.tests/src/org/eclipse/jdt/ls/core/internal/commands/SemanticTokensCommandTest.java:215-249 | a seek stops at the first well-formed selected token after a run of well-formed skipped ones |
| SemanticTokens.AssertionPasses | org.eclipse.jdt.ls.tests/src/org/eclipse/jdt/ls/core/internal/commands/SemanticTokensCommandTest.java:215-292 | conversely, an assertion whose skipped tokens are well formed and whose next selected token is well formed, of the expected type and with exactly the expected modifiers passes and stops at that token |
| SemanticTokens.UnfilteredAssertion | org.eclipse.jdt.ls.tests/src/org/eclipse/jdt/ls/core/internal/commands/SemanticTokensCommandTest.java:215-249 | with no filter an assertion reads exactly one token, and passes exactly when that token is there, well formed, of the expected type and with exactly the expected modifiers |
| SemanticTokens.EndAssertion | org.eclipse.jdt.ls.tests/src/org/eclipse/jdt/ls/core/internal/commands/SemanticTokensCommandTest.java:255-270 | with no filter, passes exactly when every token was read; with a filter, passes exactly when every unread token has a known type outside the filter |

## Left out

- Transport and threads. The create request, `notifyProgress`, `sendProgressReport`, `sendStatusReport` and the callback thread are not modelled. The handshake is the event `HandshakeCompleted`, and notifications are the step's output list. A flag makes the callback run at most once. A monitor receives each member's handshake separately, as the `Handshake` input of `ReporterFactory.Handle`, never through the multicast.
- The handshake callback is taken to be atomic with respect to the handler calls. In the code it runs on another thread, so a `done` that arrives between its `isDone()` test (ProgressReporterManager.java:186) and `clientReady = true` (:202) sends no `end`, because the reporter is not yet ready, and the callback then sends a `begin` instead. The model has no such interleaving.
- The clock and stream identities. `System.currentTimeMillis` is the `now` argument, and `UUID.randomUUID` is an opaque `ProgressToken` argument. `long` times are unbounded integers, since they cannot overflow in practice.
- The superclass `CancellableProgressMonitor` is not part of this model. It is assumed that:
  - `done()` sets a done flag that `isDone()` reads;
  - cancellation is a plain flag;
  - its `setTaskName` has no effect of its own.
- `getProgressReporter(CancelChecker)` is not modelled. It only hands its checker to that superclass.
- `internalWorked(double)` is left out, because it is floating point. Its forwarding by the multicast is left out with it.
- `setReportThrottle` is not a separate operation. The throttle delay is an argument of every step, and 200 ms is `DefaultDelay`.
- The `%.0f` formatting of the legacy status percentage is not modelled. This includes the division by a zero total in the server-status message. A `Message` keeps the operands and the surrounding text instead.
- The client preferences and `JobMessages.jobs_blocked0` are arguments (`supported`, `blocked`). `MavenProjectImporter.IMPORTING_MAVEN_PROJECTS` is taken to be the reporter's own "Importing Maven project(s)".
- A missing client, which makes the legacy senders return early, is not modelled.
- The job is reduced to its name, its system flag and its membership of the initialization family.
- The semantic-tokens provider, its null results, the legend contents and the fixture sources are not modelled. The data and the legend are arguments.
- SemanticTokens.AssertNextToken: does not compare the token's text with the source buffer (`assertTextMatchInBuffer`). That needs the buffer and the line/column-to-offset lookup, which are not part of this model. The decoded start is returned instead, so a caller can compare.
- SemanticTokens.Advance: lines and columns are unbounded integers. The helper's `int` counters would wrap only after 2^31 lines or columns.
- ReporterFactory.Handle: for a call on a multicast it states each member's next state but not the notification list. What the list holds is stated by `Multicast.Broadcast` and the lemmas after it.
