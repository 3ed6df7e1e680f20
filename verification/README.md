# Verified models of the LIQI platform's probe, release and evidence tooling

This project models the parts of the LIQI platform that hold real state machines, parsers and arithmetic, and proves
what they keep over every input and every run:

- the live probe's WebSocket client and Phoenix mailbox, from bytes on a socket to selectively received messages, and
  the recorder that turns a run into evidence and an exit code;
- release activation, rollback and automatic recovery on a host whose every command may fail, and sequences of such runs;
- resumable adoption of cloud resources into the OpenTofu state, with the discovery before it and the gate after it;
- the deterministic release archive and its extractor;
- the final readiness verdict;
- crash-consistent publication of checksummed documents, the capacity check, and the brace scanner of the
  infrastructure validator.

Where the source works by changing things step by step, so does the model: `Socket`, `WebSocket`, `PhoenixChannel`,
`Recorder`, `Host`, `Store` and `Disk` are classes, and loops are loops. Each method is proved against a function of the
inputs or of the old state, and the theorems are about that function. Whatever the network, the disk, `systemctl`,
`tofu` or the clock may do is a nondeterministic choice or an input.

| files | subject |
|---|---|
| `WebSocketFrames`, `WebSocketClient`, `WebSocketHandshake` | frame format, stream reader, message assembly, handshake |
| `PhoenixChannel` | selective receive over an arrival log |
| `ProbeRecorder`, `LiveProbe` | check recorder, step order of a probe run, exit code |
| `ServiceOrder`, `ReleaseControl`, `ReleaseEvidence`, `ReleaseHistory`, `ReleaseHost` | start and stop order, release scripts, evidence documents, histories of runs, the program |
| `StateAdoption`, `AdoptionRuns` | state documents and identifiers, discovery, adoption runs, the gate |
| `TextOrder`, `ReleaseArchive` | string order and sorting, archive and extraction |
| `Readiness`, `ReadinessVerdict` | inputs of the readiness verdict, the verdict |
| `BlockScanner`, `Publication`, `Capacity` | one module each |

## What the proofs found

Properties that one would expect, and that the code does not have in general. Each has a lemma or clause that says
exactly when it holds.

- A mailbox holds at most 256 messages after a call that returns: not after an earlier call overflowed. The exact
  condition is `PhoenixChannel.PendingBound`; `PendingBoundFails` leaves 257; `BoundedRun` is about whole runs.
- A failing wait loses no message: not when its predicate raises on a message just read, which is then neither delivered
  nor kept (`PhoenixChannel.RaisingLosesMessage`; `Accounts` says exactly when).
- A failed rollback leaves failed evidence and exits 4: only if it failed while stopping the outgoing release, or had nothing to stop. Otherwise
  the evidence holds records with durations, which `contracts/deployment/rollback-v1.schema.json` refuses, and the program
  ends with an exception instead (`ReleaseControl.RollbackOutcomes`; `RollbackCanBeRejected` is such a run).
- An executed run exits 0 exactly if it succeeded: only if the evidence fits its schemas, which are applied after the host
  has been changed. The deployment id `PROD-1` or one of 88 characters, or an approval of 257, turns a healthy activation
  into exit 1 without evidence (`ReleaseEvidence.FitsExactly`, `ReleaseHistory.UnfitDeploymentId`; `ReleaseHost.Host.Control`
  is exact). An adoption run has the same trait (`AdoptionRuns.Report`).
- Services stop in the reverse of their start order: if and only if every group of equal start order reads the same
  backwards, because the sort is stable in both directions (`ServiceOrder.StopOrderReversesStartOrder`); without repeated
  services that means distinct start orders (`SymmetricMeansDistinct`).
- The result of an adoption run says whether it changed the state: an import that fails or times out may have written.
  The last clause of `AdoptionRuns.Adopt` is exact.
- An older document never helps: evidence dated more than 300 seconds ahead fails now and passes later
  (`ReadinessVerdict.FutureEvidencePassesLater`). `WorseNeverHelps` gives the exact condition.
- The readiness verdict is at least as bad as its worst input: not for a compatibility document or checkpoint that says
  `failed` without a failed blocker, as soon as anything else is blocked (`FailedCompatibilityCanBeBlocked`;
  `ReadinessVerdict.FailedExactly` is exact).
- A probe in which a step fails outright reports `failed`: not if the step records no check, such as the acknowledgement;
  the run is then only `blocked` (`LiveProbe.UnrecordedFailureIsBlocked`; the third clause of `ProbeMeans` is exact).
- The 32 KiB limit on handshake headers does not depend on chunking: if and only if the headers do not end between 32,770
  and 36,864 bytes (`WebSocketHandshake.AgreeOutsideTheWindow`; `ResponseInTheWindow` is a response on which it does).
- A passed adoption run means matching identifiers: only of what it found, since no run looks at its own imports. A second
  passed run settles it (`AdoptionRuns.PassedAfterCuts`, `SecondPassIsComplete`).
- A reader returns only a document whose checksum it has checked: if and only if the same document was in
  place at both of its reads of it (`Publication.ReturnedIsChecked`; `UncheckedDocument` is such a read).

Two choices of the code that its descriptors suggest otherwise are kept: the compatibility preflight does not look at
`maximum_migration`, and only activations have a time limit.

## Model

| member | source | states |
|---|---|---|
| WebSocketFrames.MaskedTwice | beam/scripts/platform_probe.py:453-462 | masking twice with any key gives back any payload; `MaskedBits` says that masking is exclusive or |
| WebSocketFrames.MaskedBits | beam/scripts/platform_probe.py:453-462 | every bit of a masked payload is set exactly if that bit of the payload differs from that bit of the mask, the mask being repeated every four bytes |
| WebSocketFrames.ShortestFormIsShortest | beam/scripts/platform_probe.py:454-460 | the length form that is written is the only shortest of the forms that fit |
| WebSocketFrames.LengthFieldReads | beam/scripts/platform_probe.py:476-480 | every length, in each form that fits it, reads back, whatever follows |
| WebSocketFrames.LengthFieldSound | beam/scripts/platform_probe.py:476-480 | a length that reads was laid out in one of the three forms, and nothing more was taken |
| WebSocketFrames.DecodeServerOfWire | beam/scripts/platform_probe.py:464-488 | every layout of every acceptable frame decodes to that frame and leaves exactly what followed |
| WebSocketFrames.DecodeServerSound | beam/scripts/platform_probe.py:464-488 | whatever decodes was a layout of an acceptable frame: nothing else is accepted |
| WebSocketFrames.RefusedExactly | beam/scripts/platform_probe.py:464-488 | which streams are refused for reserved bits, a masked frame, a bad control frame or size, and which are incomplete, on their bytes |
| WebSocketFrames.DecodeClientOfWire | beam/scripts/platform_probe.py:447-462 | a peer decodes every masked layout to the frame it was made from, for every mask |
| WebSocketFrames.DecodeClientAllAppend | beam/scripts/platform_probe.py:447-462 | writing one more frame appends exactly that frame to what a peer decodes, with no bytes left over |
| WebSocketFrames.ReadsOneMore | beam/scripts/platform_probe.py:464-488 | reading one more frame extends what has been read of the whole stream by exactly that frame |
| WebSocketFrames.ReadsIsDeterministic | beam/scripts/platform_probe.py:464-488 | two readings of one stream agree on all the frames both have read |
| WebSocketFrames.ReadsIsFront | beam/scripts/platform_probe.py:464-488 | what has been read is a front part of all frames of the stream, and the rest of the stream holds exactly the others |
| WebSocketClient.Socket.Recv | beam/scripts/platform_probe.py:495-502 | a socket gives any non-empty chunk up to the limit, and nothing only at the end |
| WebSocketClient.WebSocket.constructor | beam/scripts/platform_probe.py:279-284 | bytes that follow the handshake are the front of the stream, and whatever was sent before, such as the request, is kept apart from the frames |
| WebSocketClient.WebSocket.ReadExact | beam/scripts/platform_probe.py:490-505 | over any chunking, exactly the next bytes of the stream, or a failure that consumes nothing, with a timeout only where the socket is needed and not prompt; consumed, buffered and unread bytes always make up the whole stream |
| WebSocketClient.WebSocket.NextFrame | beam/scripts/platform_probe.py:464-488 | without a timeout, the frame or refusal that the one-shot decoder finds on the whole stream, over any chunking |
| WebSocketClient.WebSocket.RecvFrame | beam/scripts/platform_probe.py:464-488 | over any number of calls, the frames received are a front part of all frames that the one-shot decoder finds on the whole stream, and all of them once a read fails other than by its deadline |
| WebSocketClient.SameBytesSameFrames | beam/scripts/platform_probe.py:464-505 | two readers of the same bytes receive the same frames, however their sockets cut the bytes into chunks |
| WebSocketClient.FrameBytes | beam/scripts/platform_probe.py:454-462 | the header branches lay out exactly the masked frame with its length in the shortest form |
| WebSocketClient.WebSocket.SendFrame | beam/scripts/platform_probe.py:447-462 | sends one masked frame in shortest form or nothing, and everything sent after the request decodes to exactly the frames sent |
| WebSocketClient.CompletesIsMessage | beam/scripts/platform_probe.py:398-432 | what the assembly loop accepts is exactly one text frame and its continuations, ended by a final one, among pings and pongs |
| WebSocketClient.BodyLaws | beam/scripts/platform_probe.py:398-432 | the text is the payloads of the data frames, joined in their order |
| WebSocketClient.PongsLaws | beam/scripts/platform_probe.py:407-409 | pings and nothing else are answered, in order, each by a final pong with its payload |
| WebSocketClient.MessageIsReceived | beam/scripts/platform_probe.py:398-432 | every message of at most 1 MiB is received whole under every interleaving of control frames, with one pong per ping in order |
| WebSocketClient.OutcomeOfMessage | beam/scripts/platform_probe.py:398-432 | of a message of at most 1 MiB: an encoding error exactly if its joined payloads are not UTF-8, an exposed secret exactly if they are and reflect one, and otherwise exactly those bytes |
| WebSocketClient.FailureOfStream | beam/scripts/platform_probe.py:398-432 | every other outcome, by what follows the front of a message: closed, refused, too large, a new text too soon or an unsupported frame, with the pings of the front answered |
| WebSocketClient.ReceivedIsMessage | beam/scripts/platform_probe.py:398-432 | a text that is returned was exactly one such message, of at most 1 MiB, valid and not reflecting a secret |
| WebSocketClient.WebSocket.RecvText | beam/scripts/platform_probe.py:398-432 | without a timeout, and so always for a prompt peer, the result, the pongs and the remaining stream are functions of the bytes alone |
| WebSocketClient.WebSocket.Close | beam/scripts/platform_probe.py:434-445 | one close frame the first time, none afterwards, and closed in any case |
| WebSocketHandshake.HeaderEndExactly | beam/scripts/platform_probe.py:338-349 | the headers end at the first CR LF CR LF and nowhere else |
| WebSocketHandshake.EndInFront | beam/scripts/platform_probe.py:338-349 | a front part of a response holds its first blank line exactly when it reaches the line's end |
| WebSocketHandshake.HandshakeIsPossible | beam/scripts/platform_probe.py:337-346 | for every chunking: without a blank line the response is too large or closed early, by its size alone; with one it is read if the line ends by 32,769 bytes, refused if after 36,864, and one of the two between |
| WebSocketHandshake.FullChunksSucceed | beam/scripts/platform_probe.py:337-346 | headers that end in the window are read when every chunk is full |
| WebSocketHandshake.OneByteFirstFails | beam/scripts/platform_probe.py:337-346 | the same headers are refused when the first chunk is a single byte |
| WebSocketHandshake.AgreeOutsideTheWindow | beam/scripts/platform_probe.py:337-346 | all chunkings of a stream agree if and only if its headers do not end between 32,770 and 36,864 bytes |
| WebSocketHandshake.ResponseInTheWindow | beam/scripts/platform_probe.py:337-346 | a response of 32,770 bytes on which they do not agree |
| WebSocketHandshake.ReadHandshake | beam/scripts/platform_probe.py:337-349 | the loop over a socket has the outcome of the loop on values for the chunks it was handed; headers, blank line, leftover and unread bytes make up the stream |
| WebSocketHandshake.Connect | beam/scripts/platform_probe.py:336-380 | decided by the bytes and their chunks: which failure, or a connection that has sent exactly the request and whose frame reader starts right after the first blank line of the whole stream |
| PhoenixChannel.ScanOneMore | beam/scripts/platform_probe.py:558-572 | reading one more message continues a wait: it is delivered, kept, or overflows the mailbox |
| PhoenixChannel.ScanPrefix | beam/scripts/platform_probe.py:563-572 | a wait that has ended is not changed by what would arrive later |
| PhoenixChannel.WaitRefinesLog | beam/scripts/platform_probe.py:558-572 | a wait delivers the earliest undelivered arrival that it wants or nothing, keeps the others in order, and loses none |
| PhoenixChannel.StepKeeps | beam/scripts/platform_probe.py:558-572 | a wait delivers something that was not delivered before, and nothing delivered comes back |
| PhoenixChannel.NothingIsLost | beam/scripts/platform_probe.py:558-572 | after any run, deliveries, undelivered messages and messages lost to a raising predicate are all arrivals, in order; without raising predicates nothing is lost |
| PhoenixChannel.RaisingLosesMessage | beam/scripts/platform_probe.py:567-569 | a predicate that raises on a message just read loses it |
| PhoenixChannel.AccountsIsStep | beam/scripts/platform_probe.py:558-572 | every wait of the channel is a step of such a run, delivering, losing or keeping as its result says |
| PhoenixChannel.DeliveredOnce | beam/scripts/platform_probe.py:558-572 | no two waits of a run deliver the same arrival |
| PhoenixChannel.PendingBound | beam/scripts/platform_probe.py:558-572 | exactly when the mailbox is within 256 messages after a wait that returns |
| PhoenixChannel.WaitBound | beam/scripts/platform_probe.py:558-572 | a wait, whichever way it ends, leaves the bound of 256 messages exactly by overflowing |
| PhoenixChannel.BoundedRun | beam/scripts/platform_probe.py:558-572 | over a whole run from an empty mailbox, at most 256 messages are pending after every wait if and only if none has overflowed |
| PhoenixChannel.PendingBoundFails | beam/scripts/platform_probe.py:558-572 | a wait after an overflow can return and leave 257 messages |
| PhoenixChannel.ArrivalsAgree | beam/scripts/platform_probe.py:388-396 | the messages that arrive are determined by the bytes on the socket |
| PhoenixChannel.NextOnStream | beam/scripts/platform_probe.py:388-396 | the next text on a stream is its next message, or ends it as not JSON, not a frame, or with the failure of the socket |
| PhoenixChannel.EndingIsForeign | beam/scripts/platform_probe.py:388-396 | a stream by itself never ends in a timeout, an overflow or a raising predicate |
| PhoenixChannel.PhoenixChannel.constructor | beam/scripts/platform_probe.py:509-514 | a new channel has an empty mailbox and an empty log |
| PhoenixChannel.PhoenixChannel.RecvJson | beam/scripts/platform_probe.py:388-396 | without a timeout, and so always for a prompt peer, the next text on the stream decides the message or the failure |
| PhoenixChannel.PhoenixChannel.FindPending | beam/scripts/platform_probe.py:560-562 | the first pending message that is wanted |
| PhoenixChannel.PhoenixChannel.WaitMessage | beam/scripts/platform_probe.py:558-572 | without a timeout, and so always for a prompt peer, result and mailbox are those of a wait over all messages on the whole stream; a failure loses nothing, but a predicate that raises on a message just read loses exactly that one; at most 256 pending as long as no wait has overflowed |
| PhoenixChannel.PhoenixChannel.Await | beam/scripts/platform_probe.py:563-572 | what is read is a front part of all messages on the stream; a wait in vain has read them all and fails as the stream ends; delivery, overflow and a raising predicate exactly as in the scan |
| ProbeRecorder.AlarmsShow | beam/scripts/platform_probe.py:615-672 | counters or failed checks show after any stages exactly when a stage that was reached raised an alarm |
| ProbeRecorder.FailedExactly | beam/scripts/platform_probe.py:664-672 | `failed` exactly when a stage that was reached counted an event or wrote a failed check |
| ProbeRecorder.PassedExactly | beam/scripts/platform_probe.py:664-672 | `passed` exactly when every stage was clean; a run that was cut short never passes |
| ProbeRecorder.EveryCheckAccounted | beam/scripts/platform_probe.py:659-662 | however a run ends, no check is left as not executed |
| ProbeRecorder.PassedMeansRan | beam/scripts/platform_probe.py:615-640 | a check that is reported as passed was reached and nothing was wrong there |
| ProbeRecorder.StoppingEntry | beam/scripts/platform_probe.py:615-672 | the check of the stage that stopped a run carries its status and class, an unexpected exception its own class, and a lost delivery fails the handoff with it |
| ProbeRecorder.UnreachedEntry | beam/scripts/platform_probe.py:1062-1077 | checks that were not reached are blocked by an upstream failure, or by an unexpected error exactly if that error was never recorded |
| ProbeRecorder.PassedEntry | beam/scripts/platform_probe.py:615-640 | a check whose stage was passed keeps what that stage found, unless the stopping stage writes it again |
| ProbeRecorder.CountsExactly | beam/scripts/platform_probe.py:581-672 | each published counter is the number of events that the reached stages counted, with one lost event for a failed delivery |
| ProbeRecorder.StopsThere | beam/scripts/platform_probe.py:731-995 | once a stage has raised, no later stage changes anything |
| LiveProbe.StagesAreScript | beam/scripts/platform_probe.py:731-995 | each of the eleven checks is filled by exactly one step, and a recorded step follows every unrecorded one |
| LiveProbe.Recorder.constructor | beam/scripts/platform_probe.py:581-601 | every check starts blocked and not executed, every counter at zero |
| LiveProbe.Recorder.Run | beam/scripts/platform_probe.py:615-640 | records passed, blocked or failed and raises again, turning an unexpected exception into a probe failure |
| LiveProbe.Recorder.Set | beam/scripts/platform_probe.py:642-657 | replaces one check and nothing else |
| LiveProbe.Recorder.BlockRemaining | beam/scripts/platform_probe.py:659-662 | blocks the listed checks that were not executed, and changes no other |
| LiveProbe.Recorder.Status | beam/scripts/platform_probe.py:664-672 | failed on any counter or failed check, else blocked on any blocked check, else passed |
| LiveProbe.Recorder.Deliver | beam/scripts/platform_probe.py:853-866 | a delivery that fails counts a lost event and fails or blocks the handoff with it |
| LiveProbe.Recorder.Tolerate | beam/scripts/platform_probe.py:983-991 | only a blocked failure of the native kernel is let through |
| LiveProbe.Recorder.RunLiveProbe | beam/scripts/platform_probe.py:731-995 | the checks, counters and exception after a run are those of its stages in order up to the first that raises |
| LiveProbe.Probe | beam/scripts/platform_probe.py:1041-1082 | the published sheet and exit code, with and without a probe token |
| LiveProbe.ProbeMeans | beam/scripts/platform_probe.py:998-1082 | for every run: all checks accounted for, exit 0 exactly if everything was clean, exit 1 exactly on an alarm, passed checks were really reached |
| LiveProbe.UnrecordedFailureIsBlocked | beam/scripts/platform_probe.py:874-878 | an otherwise clean run whose acknowledgement fails is published as blocked |
| LiveProbe.SuitsComposer | beam/scripts/platform_probe.py:30-42 | the evidence of every run lists exactly the checks that the readiness composer requires, and counts exactly the events it sums |
| ServiceOrder.SortedIsStable | infrastructure/deployment/release_control.py:179-180 | sorted either way, and services with equal start order keep their listed order |
| ServiceOrder.SortedHasSame | infrastructure/deployment/release_control.py:179-180 | sorting keeps exactly the listed services |
| ServiceOrder.SortedDirections | infrastructure/deployment/release_control.py:179-180 | start orders go down along the stop order and up along the start order |
| ServiceOrder.GroupsDetermine | infrastructure/deployment/release_control.py:179-180 | a stable sort has only one possible result |
| ServiceOrder.StopOrderReversesStartOrder | infrastructure/deployment/release_control.py:179-180 | stop order is the reverse of start order if and only if every group of equal start order reads the same backwards |
| ServiceOrder.SymmetricMeansDistinct | infrastructure/deployment/release_control.py:179-180 | for services of which none is listed twice, that is if and only if start orders are distinct |
| ReleaseControl.StopClears | infrastructure/deployment/release_control.py:183-195 | a completed stop leaves both links alone and none of the release's services running |
| ReleaseControl.StartRaises | infrastructure/deployment/release_control.py:198-209 | a completed start leaves both links alone and all services running |
| ReleaseControl.RunsInOrder | infrastructure/deployment/release_control.py:183-209 | at every failure point: units of the leaving release are stopped from the highest start order down, then units of the entering release started from the lowest up; recovery the other way round, without draining |
| ReleaseControl.DrainsFirst | infrastructure/deployment/release_control.py:183-195 | an outgoing release that can be drained is drained first and once, nothing else happens unless that succeeded, and nothing is drained otherwise or during recovery |
| ReleaseControl.HealthGatedMeans | infrastructure/deployment/release_control.py:371-381 | an activation that exits 0 has selected its target, its services up, healthy last and in time |
| ReleaseControl.RolledBackMeans | infrastructure/deployment/release_control.py:399-414 | a rolled back activation has its prior release selected and healthy again, or a cleared selection |
| ReleaseControl.ActivationOutcomes | infrastructure/deployment/release_control.py:371-436 | the three outcomes of an activation are exactly those three ways of ending; exit 0 and 3 tell them apart exactly if its evidence fits, otherwise exit 1 |
| ReleaseControl.RollbackPassedMeans | infrastructure/deployment/release_control.py:382-398 | a passed rollback has its target live and healthy, or the first release deactivated |
| ReleaseControl.RollbackOutcomes | infrastructure/deployment/release_control.py:382-436 | exit 0, 4 and 1 of a rollback told apart exactly by its last step, whether it got past stopping the outgoing release, and whether its evidence fits |
| ReleaseControl.RollbackCanBeRejected | infrastructure/deployment/release_control.py:399-429 | a rollback that stops its only service and then cannot move the link ends with rejected evidence |
| ReleaseControl.RunLink | infrastructure/deployment/release_control.py:371-419 | after any failure the selected release is the one before the run or the one it aims at |
| ReleaseControl.LinkMovesOnlyWhenDown | infrastructure/deployment/release_control.py:371-411 | at every failure point the current link moves to another release only while no service of the outgoing one runs |
| ReleaseEvidence.FitsExactly | infrastructure/deployment/release_control.py:318-357 | the documents fit their schemas exactly if the deployment id has 3 (rollback: 1) to 87 characters, all lower-case letters, digits, dots, underscores or hyphens with a letter or digit first, and the approval at most 256 |
| ReleaseEvidence.WrittenExactly | infrastructure/deployment/release_control.py:421-429 | which of the two documents is written, by outcome, mode and labels |
| ReleaseEvidence.Publish | infrastructure/deployment/release_control.py:421-436 | validates and writes the rollback document, then the activation document, up to the first refusal; the exit code that results |
| ReleaseEvidence.CompleteEvidence | infrastructure/deployment/release_control.py:421-436 | all documents are written exactly if the labels fit and no record is timed; unfit labels exit 1 whatever the outcome |
| ReleaseEvidence.UnfitLabels | infrastructure/deployment/release_control.py:421-429 | PROD-1 or an id of 88 characters leaves no evidence, and ab only that of the rollback |
| ReleaseHistory.ActivatesExactly | infrastructure/deployment/release_control.py:257-303 | when an activation is admitted, on the registry, the request and the preflight, and that it is then the activation of the named release |
| ReleaseHistory.RollsBackExactly | infrastructure/deployment/release_control.py:257-303 | when a rollback is admitted, on the registry, the request and the preflight, and that it then leads to the declared target or to nothing |
| ReleaseHistory.DestinationChain | infrastructure/deployment/release_control.py:257-281 | an admitted activation leads one step further from nothing, an admitted rollback one step closer |
| ReleaseHistory.AttemptMovesChain | infrastructure/deployment/release_control.py:257-281 | any attempt leaves the chain as it was or one step on in its own direction; a successful one has moved exactly that step |
| ReleaseHistory.ChainIsUnique | infrastructure/deployment/release_control.py:257-281 | following rollback targets reaches nothing after at most one number of steps |
| ReleaseHistory.ChainIsAlwaysFinite | infrastructure/deployment/release_control.py:257-281 | from an empty selection, any history of attempts leaves a selection whose rollback targets end, after exactly one number of steps |
| ReleaseHistory.RollbacksReachNothing | infrastructure/deployment/release_control.py:273-281 | successful rollbacks reach an empty selection after exactly chain-length runs |
| ReleaseHistory.RollbackIsDeclared | infrastructure/deployment/release_control.py:273-281 | a selected release can always be rolled back as far as retained descriptors go |
| ReleaseHistory.RollbackStaysCompatible | infrastructure/deployment/release_control.py:125-130 | after an admitted activation the rollback is admitted at exactly the versions both releases support, which include that of the activation |
| ReleaseHistory.LiveButExitOne | infrastructure/deployment/release_control.py:371-436 | a successful activation with unfit labels exits 1 with its target live |
| ReleaseHistory.UnfitDeploymentId | infrastructure/deployment/release_control.py:371-436 | such a run for any first release, with the deployment id PROD-1 |
| ReleaseHost.Host.Perform | infrastructure/deployment/release_control.py:61-79 | any command may fail, and a failed stop or start may leave its unit either way |
| ReleaseHost.Host.StopRelease | infrastructure/deployment/release_control.py:183-195 | drain first if asked and possible, then every service in stop order, giving up at the first failure |
| ReleaseHost.Host.StartRelease | infrastructure/deployment/release_control.py:198-209 | every service in start order, then the health gate, giving up at the first failure |
| ReleaseHost.Host.SelectRelease | infrastructure/deployment/release_control.py:212-218 | the current link, then the runtime link |
| ReleaseHost.Host.ClearSelection | infrastructure/deployment/release_control.py:221-223 | both links removed, in that order |
| ReleaseHost.Host.RunForward | infrastructure/deployment/release_control.py:370-398 | performs the script of its transition up to the first failure, and when its records carry durations |
| ReleaseHost.Host.Recover | infrastructure/deployment/release_control.py:405-412 | stops the target without draining, then restores the prior release or clears the selection |
| ReleaseHost.Host.Execute | infrastructure/deployment/release_control.py:368-436 | every executed run is a forward script and, only for a failed activation, a recovery, with the outcome that these imply |
| ReleaseHost.Host.Control | infrastructure/deployment/release_control.py:250-436 | every invocation is an attempt of a history; an executed one exits as its outcome and its labels say, with 0 exactly if it succeeded and its evidence fits; which documents are written; refusals and dry runs change nothing |
| StateAdoption.DiscoveredIdentifierMatches | infrastructure/deployment/adopt_v1_live_state.py:68-75 | the identifiers that discovery writes match exactly the short identifier that the provider stores |
| StateAdoption.MatchesExactly | infrastructure/deployment/adopt_v1_live_state.py:68-75 | equal identifiers always match; a different one only if it is the last part of the expected one, for a rule or the key |
| StateAdoption.EntriesLaws | infrastructure/deployment/adopt_v1_live_state.py:45-65 | a document shows the string identifiers of its managed `oci_` resources, each under its module, type, name and index |
| StateAdoption.MapOfKeys | infrastructure/deployment/adopt_v1_live_state.py:45-65 | with distinct addresses the map holds each entry, and only those |
| StateAdoption.MapOfLast | infrastructure/deployment/adopt_v1_live_state.py:161 | of several manifest entries for one address the last one counts |
| StateAdoption.StateIds | infrastructure/deployment/adopt_v1_live_state.py:45-65 | the managed instances as a map, refused exactly when an address is shown twice |
| AdoptionRuns.Store.Import | infrastructure/deployment/adopt_v1_live_state.py:171-177 | an import that succeeds adds one entry for its address, with whatever identifier the provider stores; one that fails may have done so too |
| AdoptionRuns.ImportMissing | infrastructure/deployment/adopt_v1_live_state.py:165-178 | the loop passes exactly when nothing present differs and it was not cut, and only ever adds entries for manifest addresses |
| AdoptionRuns.Adopt | infrastructure/deployment/adopt_v1_live_state.py:104-187 | when a run passes, that an unexpected address stops it before any import, that a state with exactly the manifest identifiers passes and stays as it is, that a different identifier stored in full fails, and exactly when the state is unchanged |
| AdoptionRuns.Report | infrastructure/deployment/adopt_v1_live_state.py:78-187 | the result is written, and exit 0 or 4 given, exactly if the approval has at most 256 characters and a failure message at least 3; otherwise exit 1, with the state as the run has left it |
| AdoptionRuns.ManyRuns | infrastructure/deployment/adopt_v1_live_state.py:155-178 | any number of runs cut anywhere keep every entry, and the state stays consistent exactly as far as the provider stored matching identifiers |
| AdoptionRuns.PassedAfterCuts | infrastructure/deployment/adopt_v1_live_state.py:155-178 | after cut runs and one that passes the state holds exactly the manifest addresses, old entries unchanged, everything found is checked, the two lists split the manifest, and the state is complete exactly if the provider was faithful in the last run |
| AdoptionRuns.SecondPassIsComplete | infrastructure/deployment/adopt_v1_live_state.py:155-178 | a second passed run imports nothing and leaves no identifier unchecked: the state is complete for certain |
| AdoptionRuns.CollectImports | infrastructure/deployment/discover_v1_live_adoption.py:125-129 | an import record for exactly the resources that were found |
| AdoptionRuns.MissingAddresses | infrastructure/deployment/discover_v1_live_adoption.py:431-432 | exactly the addresses of the source graph that were not found, in order and once each |
| AdoptionRuns.SortByAddress | infrastructure/deployment/discover_v1_live_adoption.py:441 | the import records in the order of their addresses, none lost and none added |
| AdoptionRuns.Discover | infrastructure/deployment/discover_v1_live_adoption.py:431-446 | the manifest partitions the source graph into found and missing addresses, with its records in order of address |
| AdoptionRuns.AdoptionCheckExactly | infrastructure/validation/pre_apply_readiness.py:102-122 | when the manifest passes the gate and when it fails it, on its fields |
| AdoptionRuns.AdoptionResultCheckExactly | infrastructure/validation/pre_apply_readiness.py:275-305 | when the result of an adoption run passes the gate and when it fails it, on its fields |
| AdoptionRuns.HandoffPasses | infrastructure/validation/pre_apply_readiness.py:275-305 | a discovered manifest without blockers satisfies the gate, and an adoption result for the same files does exactly when it passed (the manifest gate is at lines 102-122) |
| TextOrder.AscendingIsUnique | beam/scripts/build_linux_release.py:157-176 | a strictly ascending sequence is determined by its elements |
| TextOrder.BelowExactly | beam/scripts/build_linux_release.py:157-176 | one string comes before another exactly if it is a proper front part of it or has the smaller character where they first differ |
| TextOrder.Sort | beam/scripts/build_linux_release.py:157-176 | distinct names in ascending order, none lost and none added |
| ReleaseArchive.SafeRelativeOfJoin | infrastructure/deployment/stage_mix_release.py:67-71 | the name written for any path is safe and leads back to that path |
| ReleaseArchive.SafeRelativeExactly | infrastructure/deployment/stage_mix_release.py:67-71 | a name is refused exactly if it is absolute, has a parent reference or no significant component |
| ReleaseArchive.SafeIsPath | infrastructure/deployment/stage_mix_release.py:67-71 | a path that is not refused consists of proper names only |
| ReleaseArchive.ArchiveIsUnique | beam/scripts/build_linux_release.py:157-176 | the members depend on the tree alone, not on the order of directory listings |
| ReleaseArchive.DeterministicArchive | beam/scripts/build_linux_release.py:157-176 | for a listing in any order, one member per entry in ascending order, with mode and content |
| ReleaseArchive.MembersExactly | beam/scripts/build_linux_release.py:157-176 | each member has the name, kind and bytes of its entry, with octal mode 755 for directories and executables and 644 for other files |
| ReleaseArchive.ModeBits | infrastructure/deployment/stage_mix_release.py:116-133 | special permissions and executability read off the octal digits of a mode |
| ReleaseArchive.WriteExactly | infrastructure/deployment/stage_mix_release.py:121-138 | writing one member: a conflict exactly if something of another kind is in the way, forbidden content exactly if a file of at most 8 MiB has it, and otherwise the whole new tree |
| ReleaseArchive.AdvanceExactly | infrastructure/deployment/stage_mix_release.py:110-120 | why a member is refused before it is written |
| ReleaseArchive.ExtractRelease | infrastructure/deployment/stage_mix_release.py:104-138 | the loop with its running total extracts members in sequence and stops at the first refusal, of the right kind |
| ReleaseArchive.ExtractedIsSafe | infrastructure/deployment/stage_mix_release.py:104-138 | for every member sequence: what is extracted without a refusal is a parent-closed tree of proper names, of files and directories only, within 2 GiB and without forbidden content in a small file |
| ReleaseArchive.EntryComesBack | infrastructure/deployment/stage_mix_release.py:110-138 | extracting the member of an entry puts back exactly that entry, disturbs no other, and when it is refused |
| ReleaseArchive.RoundTrip | infrastructure/deployment/stage_mix_release.py:104-138 | extracting the archive of any parent-closed tree gives back that tree; it is refused exactly when empty, too large or with forbidden content |
| Readiness.CombineStatus | operations/bin/readiness_v1_common.py:80-85 | the loop computes the combination of all statuses |
| Readiness.CombinedIsWorst | operations/bin/readiness_v1_common.py:80-85 | no status exceeds the combination, and one of them reaches it; unknown ones count as failed |
| Readiness.CombinedExactly | operations/bin/readiness_v1_common.py:80-85 | passed if all statuses are, failed if one is or is unknown, blocked otherwise |
| Readiness.CheckExactSet | operations/bin/readiness_v1_common.py:126-139 | no complaint exactly when the values are the expected ones, once each |
| Readiness.SemanticErrors | operations/bin/compose_readiness_v1.py:70-89 | no complaint exactly when the kind's required names are listed exactly and a probe observed its own release |
| Readiness.AssessEvidence | operations/bin/compose_readiness_v1.py:204-266 | what a primary document contributes, by presence, validity, binding, age, status and mode |
| Readiness.AssessCompatibility | operations/bin/compose_readiness_v1.py:319-358 | what the compatibility document contributes, with a blocker for every check that has not passed |
| Readiness.CorrectnessCounts | operations/bin/compose_readiness_v1.py:143-160 | each counter is the sum over all readable documents, valid or not |
| Readiness.SumLaws | operations/bin/compose_readiness_v1.py:143-160 | a document counts the sum of its integer entries under a name |
| Readiness.TotalLaws | operations/bin/compose_readiness_v1.py:143-160 | all readable documents count |
| ReadinessVerdict.GoodCompatibilityHolds | operations/bin/compose_readiness_v1.py:428-430 | the last consistency check can never fire |
| ReadinessVerdict.PassedExactly | operations/bin/compose_readiness_v1.py:204-430 | `passed` if and only if everything is present, valid, bound, fresh, live and passed, without blockers or unsafe events |
| ReadinessVerdict.Compose | operations/bin/compose_readiness_v1.py:204-430 | the program's verdict is that of all its inputs, and is `passed` exactly when the release is ready |
| ReadinessVerdict.EvidencePart | operations/bin/compose_readiness_v1.py:204-266 | what a primary document reports and which blockers it has, on its fields |
| ReadinessVerdict.CheckpointPart | operations/bin/compose_readiness_v1.py:268-310 | the same of a checkpoint |
| ReadinessVerdict.CompatibilityPart | operations/bin/compose_readiness_v1.py:312-358 | the same of the compatibility document |
| ReadinessVerdict.MutationsPart | operations/bin/compose_readiness_v1.py:360-396 | the same of the mutation ledger |
| ReadinessVerdict.VerdictOnInputs | operations/bin/compose_readiness_v1.py:204-430 | `failed` and `passed`, if and only if, on the fields of the inputs: what makes one input fail the release by itself, what blocks it, and when neither decides |
| ReadinessVerdict.FailedExactly | operations/bin/compose_readiness_v1.py:421-427 | `failed` exactly on a failed blocker or, with no blocker at all, on a failed or unknown status |
| ReadinessVerdict.FailedEvidenceFails | operations/bin/compose_readiness_v1.py:242-254 | failed or invalid primary evidence makes the verdict `failed`, whatever else is missing |
| ReadinessVerdict.FailedCompatibilityCanBeBlocked | operations/bin/compose_readiness_v1.py:344-358 | under every policy, a failed compatibility document whose checks all passed may be reported as `blocked` |
| ReadinessVerdict.WorseNeverHelps | operations/bin/compose_readiness_v1.py:204-430 | if removed, older, degraded or later inputs pass, the original ones pass exactly if no primary document is dated ahead |
| ReadinessVerdict.FutureEvidencePassesLater | operations/bin/compose_readiness_v1.py:233-241 | under every policy whose ages allow two seconds, and for any one kind of evidence: dated 301 seconds ahead it fails the release now, and the same release passes two seconds later |
| ReadinessVerdict.ShippedIsPatient | operations/readiness/evidence-policy-v1.json:1-97 | the shipped policy, with its nine kinds of evidence, is such a policy |
| BlockScanner.FindEnd | infrastructure/validation/validate_infrastructure.py:71-95 | the scan ends at the first position where unquoted depth returns to zero, and fails only if there is none |
| BlockScanner.ItemsKeepDepth | infrastructure/validation/validate_infrastructure.py:76-93 | the inside of any block leaves the scanner where it was and never takes it lower |
| BlockScanner.ScanReturnsBlock | infrastructure/validation/validate_infrastructure.py:68-96 | for any nested blocks with quoted and escaped strings, and anything around them, the scan ends exactly at the end of the printed block |
| Publication.SidecarReads | database/tools/recovery_contract.py:84-88 | the checksum file that is written reads back as its digest |
| Publication.ChecksumExactly | database/tools/recovery_contract.py:84-88 | any checksum file reads as its first word in lower case if that has 64 characters, and is refused otherwise |
| Publication.MovedGrows | database/tools/recovery_contract.py:59-81 | documents moved into place are only ever added |
| Publication.PublishedToExtent | database/tools/recovery_contract.py:59-81 | every publication moved nothing, its document, or its document and checksum, and a completed one both |
| Publication.AfterMeans | database/tools/recovery_contract.py:59-81 | after any publications the document in place is that of the last one that moved it, and the checksum that of the last one that moved a checksum |
| Publication.RefusedExactly | database/tools/recovery_contract.py:305-312 | a reader is refused an acceptable document exactly when no publication moved its document, or the last that did was cut before its checksum and its bytes differ from those whose checksum was moved last |
| Publication.ReadersNeverGoBack | database/tools/recovery_contract.py:305-312 | readers whose three reads interleave with any moves get a whole document that was the latest at their last read, and never one moved earlier than what a previous reader got |
| Publication.ReturnedIsChecked | database/tools/recovery_contract.py:305-312 | the returned document is the one whose checksum was checked if and only if the same document was in place at both reads of it |
| Publication.UncheckedDocument | database/tools/recovery_contract.py:305-312 | a document moved into place between the two reads is returned although its checksum was never checked |
| Publication.CompletedIsRead | database/tools/recovery_contract.py:305-312 | after a completed publication every reader gets exactly its document, until another is moved into place |
| Publication.Disk.Publish | database/tools/recovery_contract.py:59-81 | a publication cut at any step moves nothing, the document, or the document and its checksum |
| Publication.Disk.ReadChecked | database/tools/recovery_contract.py:305-312 | three separate reads with any moves in between: the result depends only on what was in place at these moments, never on a torn file |
| Capacity.TotalsIgnoreOrder | scripts/operations/check_capacity.py:61-104 | totals do not depend on the order of the budget files |
| Capacity.ConnectionsSplit | scripts/operations/check_capacity.py:80-88 | pooled and direct connections always make up the server reservation |
| Capacity.Aggregate | scripts/operations/check_capacity.py:61-104 | the nested loops compute the totals, and complain exactly on faults and repeated providers |
| Capacity.OneComponent | scripts/operations/check_capacity.py:70-99 | what one component adds: nothing if disabled, its amounts, and its connections as pooled, direct or demand |
| Capacity.RoundedExactly | scripts/operations/check_capacity.py:32-35 | amounts are rounded to the nearest millionth, ties to even |
| Capacity.CheckCapacity | scripts/operations/check_capacity.py:61-173 | the report passes exactly when no limit and no rule is broken, with the rounded totals |
| Capacity.PassesExactly | scripts/operations/check_capacity.py:61-173 | the report passes if and only if the budgets are faultless, each required provider is there and none twice, and the totals keep every limit and rule of the envelope and the contract |
| Capacity.PassedMeans | scripts/operations/check_capacity.py:110-173 | a pass leaves the host reserve alone, exactly for memory and within tolerances and rounding for CPU and disk, and the connections add up to PostgreSQL's maximum |
| Capacity.VerdictIgnoresOrder | scripts/operations/check_capacity.py:61-173 | the verdict does not depend on the order of the budget files |

## Left out

- JSON parsing, JSON Schema validation, UTF-8 validity, regular expressions and secret scanning are predicates or
  functions given to the model; SHA-256 is a function without collisions among the documents that are published.
- The HTTP client, TLS, token loading, argument parsing and log text; the handshake request and the checks on response
  headers are inputs.
- After a wait has failed other than by overflow or a raising predicate, nothing is said about where on the stream the next
  one starts; the probe ends there.
- Timeouts are one outcome of a read; stream statements are for reads that did not time out. A failing `send` on the
  socket and a timeout during the handshake are not modelled.
- The wrappers around a channel wait (`join`, `push`, `wait_event`, `_wait_reply`) and the numbering of references.
- A check's duration, owner and evidence reference, the probe's error messages, and the HTTP exchanges inside its steps:
  a step is its outcome.
- Preflight files, descriptors and evidence documents of release control appear by what they decide; dry-run documents
  and their text are not modelled. Descriptors are immutable and keyed by their own identifier, as staging leaves them
  (`infrastructure/deployment/stage_mix_release.py`).
- Service definitions of different releases may overlap; nothing is said about units that belong to no release.
- The address table and the cloud queries of discovery are inputs, its manifest's validation is not modelled, and which of two records with the same address comes
  first is not stated.
- The bytes of tar, gzip and PAX headers, owners and timestamps in the archive, and links that the build resolves before
  archiving; the model starts from the resulting tree.
- ReleaseArchive.DeterministicArchive: names are compared by code point.
- Publications are not concurrent with each other, only with readers; in a checksum file only the
  letters A to Z have a lower case; power loss that reorders moves is not modelled.
- Capacity: floating-point amounts are real numbers, so order independence is that of exact sums.
- The exact documents that the readiness composer writes, their final validation and its exit codes, and the deduplication
  and order of its blockers; a blocker is its severity. Errors on the command line end the program before anything is composed.
- BlockScanner.FindEnd: the regular expression that finds an opening brace is not modelled; the scan starts at any
  position.
- Validators that compare constants, the native and Elixir code, and the infrastructure definitions: each branch settles
  itself or is outside these programs.
