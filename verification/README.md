# Verified model of the terminal session engine

This project models the session engine of Mast and the state machines around it in Dafny, and
proves what their comments promise: a terminal that comes back sees every byte once and in the
right modes, a slow reader never stalls and never sleeps through its wake-up, no save is lost, the
automatic reset fires when it should and not more often, and the state on disk, in memory and in
the registries stays well formed under every interleaving. `dafny verify dfyconfig.toml` checks
all of it.

Code that changes fields is modelled by classes whose methods are proved against functions on
values; the theorems over whole runs are about those functions. Concurrent parts are transition
systems whose steps are the lock sections (and single channel or registry operations) of the
program; a theorem "in every run" is an induction over arbitrary lists of steps.

| file | models |
|---|---|
| `Bytes.dfy` | bytes, saturating arithmetic, splitting, decimal numbers |
| `Osc.dfy` | the incremental control-sequence scanner |
| `Modes.dfy` | the tracker of DEC private modes, its printer, and restoring modes on a reattach |
| `Flow.dfy`, `Replay.dfy`, `Session.dfy` | the backpressure account, the replay buffer and a session's lock sections |
| `Pump.dfy`, `Sink.dfy` | reader, clients, detach, kill and exit in every interleaving; the two ends of a channel |
| `Phone.dfy` | the polling protocol between phone and server |
| `Saver.dfy` | the debounced saver: producers, flushers and one worker |
| `Reset.dfy` | the automatic reset policy and its wake-up time |
| `Layout.dfy`, `Restore.dfy` | the split tree; validating, repairing and restoring the state |
| `ExitAudit.dfy`, `ExitRuns.dfy` | the registry audit; spawns, exits and audits in every interleaving |
| `RateLimiter.dfy` | counting authentication failures |
| `Base64.dfy`, `GitStatus.dfy`, `WslPath.dfy` | the send payload decoder, the Git status parser, WSL path mapping |

## What the proofs brought to light

- The mode map keeps at most 64 modes. A mode it turned away can come back on a reattach when a
  soft reset inside the replayed output makes room (`Modes.DroppedModeNotRestored`).
  `Modes.ReattachRestoresModes` gives the exact condition: shown again from the tracked map on,
  the tail must find the map full at each put that would otherwise stay outside it. Map and tail
  are all it takes to tell, and it holds whenever nothing was turned away in the tail.
- The scanner of a new terminal may start inside a sequence. `Modes.LiveModesStayEqual` says
  exactly when later output then still leads to the same modes: inside an OSC string always; right
  after an ESC before the cut never (`Modes.IntroducerLost`); inside an unfinished CSI exactly
  when no completion of it would change the modes (`Modes.UnfinishedSequenceLost` is one that
  does).
- `flush` acknowledges a write that failed (`Saver.FailedWriteIsAcknowledged`). What an
  acknowledged flush covers is on disk exactly when some write of its generation or a later one
  succeeded (`Saver.FlushCovers`).
- A pane's own `id` field is checked by nothing; ids handed out later avoid it exactly when it
  is below the counter or not above the largest id of the file (`Restore.PaneFieldsAvoided`,
  `Restore.PaneFieldMayCollide`).
- Reading the in-flight exits before the registries is necessary, not a matter of taste
  (`ExitRuns.OrderMatters`).

## Model

| member | source | states |
|---|---|---|
| Osc.OscScanner.Feed | crates/mast-core/src/osc.rs:179-290 | one feed of the scanner object yields exactly the events and the state of the automaton run over its bytes |
| Osc.ChunkIndependence | crates/mast-core/src/osc.rs:179-290 | two feeds act as one feed of the joined bytes |
| Osc.AnyChunking | crates/mast-core/src/osc.rs:179-290 | however a stream is cut into reads, the events are those of a single read |
| Osc.BufferBounded | crates/mast-core/src/osc.rs:179-337 | whatever the stream, at most 64 KiB of an OSC and 128 bytes of a CSI are held, and nothing outside a sequence |
| Osc.CanResynchronises | crates/mast-core/src/osc.rs:179-290 | any stream followed by CAN or SUB leaves the scanner in its initial state |
| Osc.CsiRecognised | crates/mast-core/src/osc.rs:298-322 | from every reachable state a CSI is reported exactly when its body fits 128 bytes and parses, and the scanner is new afterwards |
| Osc.ModesReportedExactly | crates/mast-core/src/osc.rs:348-378 | from every reachable state, a CSI (with whatever controls inside it) is reported as setting a list of modes if and only if its body is `?` and exactly these numbers in this order with semicolons between, none empty and none beyond 65535, within 128 bytes, and its final byte is `h` or `l` accordingly |
| Osc.PrintedModesArrive | crates/mast-core/src/osc.rs:348-378 | every nonempty list of modes that fits, printed, arrives whole and in order |
| Osc.SoftResetReportedExactly | crates/mast-core/src/osc.rs:382-389 | a CSI is reported as a soft reset if and only if its body is digits and semicolons followed by `!`, within 128 bytes, and its final byte is `p` |
| Osc.CsiReportsNothingElse | crates/mast-core/src/osc.rs:348-378 | no CSI is ever reported as anything but one list of modes or one soft reset |
| Osc.OtherEscape | crates/mast-core/src/osc.rs:179-290 | any other escape ends what was in progress, is no event and leaves the scanner new |
| Osc.OscRecognised | crates/mast-core/src/osc.rs:322-337 | an OSC string free of ESC, BEL, CAN and SUB gives an event exactly when its payload is at most 64 KiB and parses, although the emptied buffer refills |
| Osc.OscReportedExactly | crates/mast-core/src/osc.rs:391-440 | from every reachable state an OSC string is reported as a given event if and only if its payload is at most 64 KiB and reads, field by field over the bytes, as that event |
| Osc.PayloadRoundTrip | crates/mast-core/src/osc.rs:391-440 | every event that can be written as an OSC payload is read back from it with each field in its place |
| Osc.WrittenArrives | crates/mast-core/src/osc.rs:179-337 | from any state, an event written as an OSC string with either terminator arrives as that one event |
| Osc.ColdStart | crates/mast-core/src/osc.rs:179-290 | a scanner started at any cut reports every event the continuing scanner reports from there on, except at most the first |
| Modes.PrintPreamble | crates/mast-core/src/session.rs:859-868 | the loop prints the map in ascending mode order |
| Modes.PreambleScans | crates/mast-core/src/session.rs:859-868 | scanning the printed preamble gives one event per tracked mode and leaves the scanner idle: printer and parser are inverse |
| Modes.PreambleLists | crates/mast-core/src/session.rs:859-868 | these events are the map: every tracked mode once, with its setting, in ascending order |
| Modes.MapMeaning | crates/mast-core/src/session.rs:823-857 | while the cap turned nothing away, the map says of each mode exactly what the last operation on it said |
| Modes.TouchExactly | crates/mast-core/src/session.rs:823-857 | setting a list of modes gives each tracked one the setting unless it is new and the map is full, and leaves every other mode as it was |
| Modes.TrackedMapOk | crates/mast-core/src/session.rs:823-857 | the map never outgrows its cap and never holds a transition mode |
| Modes.ReplayIdempotent | crates/mast-core/src/session.rs:823-857 | replaying a stretch of operations over the map it led to changes nothing, for the same cap and any larger one |
| Modes.ReplayExact | crates/mast-core/src/session.rs:823-857 | exactly when replaying operations over the map they led to leads there again, for the same cap and any larger one |
| Modes.ReattachRestoresModes | crates/mast-core/src/session.rs:465-477 | for every stream and every tail of it, a new terminal of at least 64 modes shown preamble and tail ends with exactly the map built from the whole stream if and only if, shown again from that map on, the tail finds the map full at each put that would otherwise stay outside it |
| Modes.ReattachRestoresModesFitting | crates/mast-core/src/session.rs:465-477 | the modes are restored whenever the cap turned nothing away in the replayed tail |
| Modes.ReattachRestoresModesNoDrop | crates/mast-core/src/session.rs:465-477 | the same when the cap turned nothing away in the whole stream, with what that map then says of each mode |
| Modes.LiveModesStayEqual | crates/mast-core/src/session.rs:465-477 | for every stream and cut, the new terminal holds the modes of the whole stream now and through every continuation if and only if the tail restored them and the reader is level with the new scanner, behind it only inside an OSC string, or in an unfinished CSI no completion of which would change the modes |
| Modes.AgreeForever | crates/mast-core/src/osc.rs:179-290 | two scanners, one started at a cut, take the same modes to the same modes through every continuation exactly in those positions |
| Modes.LevelOrLagging | crates/mast-core/src/osc.rs:179-290 | wherever the stream is cut, a scanner started there equals the reader's, is idle, or took an ESC inside an unseen OSC for a new one |
| Modes.IntroducerLost | crates/mast-core/src/osc.rs:179-290 | cut right after an unseen ESC, some continuation always makes the modes differ |
| Modes.UnfinishedSequenceLost | crates/mast-core/src/session.rs:465-477 | a witness: one stream and cut inside an unfinished CSI on which the mode that completes next is lost |
| Modes.DroppedModeNotRestored | crates/mast-core/src/session.rs:823-857 | for every full map that holds a mode a soft reset clears, and every further mode that a soft reset does not clear, a stream on which the replay admits what the map had turned away |
| Flow.FlowControl.Sent | crates/mast-core/src/flow.rs:54-64 | adds to the account and says pause exactly when the high mark is first reached |
| Flow.FlowControl.Acked | crates/mast-core/src/flow.rs:67-83 | subtracts down to zero and says resume exactly when the low mark is first reached while paused |
| Flow.AlwaysConsistent | crates/mast-core/src/flow.rs:54-90 | after any calls with nonempty sends: paused means above the low mark or not below the high mark, running means below the high mark or not above the low mark |
| Flow.PendingExact | crates/mast-core/src/flow.rs:52-90 | over any calls, stale and excessive acks and restarts included, pending is the largest balance of bytes sent less bytes acked since any point after the last restart |
| Flow.PendingIsBalance | crates/mast-core/src/flow.rs:52-75 | without restarts, and as long as no more is acked than was sent, pending is bytes sent less bytes acked |
| Flow.PausedExact | crates/mast-core/src/flow.rs:52-90 | paused means exactly that after some send at least the high mark was pending and that no ack since has brought it down to the low mark, and no restart came between |
| Flow.SignalExact | crates/mast-core/src/flow.rs:52-75 | a send says pause exactly when it finds the reader running and reaches the high mark; an ack says resume exactly when it finds it paused and reaches the low mark |
| Flow.CrossingsSignalledOnce | crates/mast-core/src/flow.rs:54-83 | without restarts, pauses and resumes strictly alternate |
| Replay.ReplayBuffer.Push | crates/mast-core/src/replay.rs:50-72 | the loop keeps the newest chunks that fit and notes an eviction |
| Replay.ReplayBuffer.Snapshot | crates/mast-core/src/replay.rs:84-102 | the loop joins the chunks and trims to a line boundary only after an eviction |
| Replay.ReplayBuffer.BytesFrom | crates/mast-core/src/replay.rs:109-125 | the loop returns everything from a position on, untrimmed, across chunk boundaries |
| Replay.FitIsLongestSuffix | crates/mast-core/src/replay.rs:50-72 | eviction keeps the longest run of newest chunks that fits the cap |
| Replay.PushKeepsSuffix | crates/mast-core/src/replay.rs:50-72 | whatever is pushed, the buffer holds a suffix of the stream and its cap is kept; an eviction is noted exactly when bytes were given up |
| Replay.SnapshotIsTail | crates/mast-core/src/replay.rs:84-102 | a snapshot is a tail of the retained bytes, empty only if nothing is retained; after an eviction it starts right behind the first newline if that is among the first 4096 bytes and not the last byte, and in every other case at the first retained byte |
| Session.PtySession.CommitChunk | crates/mast-core/src/session.rs:645-700 | one read commits modes, replay, account and offset together; the returned offset is where the chunk starts |
| Session.PtySession.Reattach | crates/mast-core/src/session.rs:465-477 | returns preamble plus snapshot with the current end offset and resets the account |
| Session.PtySession.ReadScreen | crates/mast-core/src/session.rs:544-573 | answers with an empty delta, a delta or a reset |
| Session.PtySession.TakeRecord | crates/mast-core/src/session.rs:505-523 | gives the last screen once the session has ended and frees the buffer |
| Session.PtySession.Kill | crates/mast-core/src/session.rs:596-618 | only the first kill goes on |
| Session.CommitMirrors | crates/mast-core/src/session.rs:645-700 | offset and buffer stay in step with everything read |
| Session.ScreenReplyExact | crates/mast-core/src/session.rs:544-573 | a reply continues exactly when `since` is retained, its delta is exactly the stretch from there to the end, and otherwise it is modes plus a tail |
| Session.RecordExact | crates/mast-core/src/session.rs:505-523 | the record is the last screen, and empty exactly when no output is left to draw |
| Session.RecordReleases | crates/mast-core/src/session.rs:505-523 | taking it frees the buffer, keeps the offsets sound, and a second take finds nothing |
| Pump.EveryRun | crates/mast-core/src/session.rs:631-735 | stream, channel, account and gate invariants hold after every run of steps |
| Pump.ExactlyOnceScreen | apps/mast/src-tauri/src/commands.rs:238-258 | in every interleaving a client has shown the preamble and one unbroken piece of the stream, nothing missing and nothing twice, up to the newest byte handed over |
| Pump.AttachedShowsAll | crates/mast-core/src/session.rs:465-477 | in every run a client that mounted its channel and reattached, and was not detached, replaced or failed to be delivered to since, shows the modes and then the stream from where its replay began up to the newest byte, but for a chunk not yet delivered |
| Pump.DropRollsBack | crates/mast-core/src/session.rs:702-716 | a chunk that could not be delivered empties the slot, is taken off the account again, and the reader goes back to its gate |
| Pump.ReattachAnyTime | crates/mast-core/src/session.rs:465-477 | at any moment of any run a reattach gives a new terminal exactly the session's modes if and only if the session's own map and retained output meet that condition |
| Pump.RecordAnyTime | crates/mast-core/src/session.rs:505-520 | in every run the record of an ended session is empty if nothing is retained, and otherwise the modes of the whole stream followed by a nonempty tail of it |
| Pump.RetainedExactly | crates/mast-core/src/replay.rs:50-66 | in every run before a record is taken, the buffer notes an eviction exactly when it does not hold the whole stream |
| Pump.LifeExactly | crates/mast-core/src/session.rs:737-752 | in every run a session is killed exactly once it was killed or its child exited, and alive exactly until its child exited |
| Pump.NoLeakNoStall | crates/mast-core/src/session.rs:634-735 | pending never exceeds what is outstanding in this epoch nor the high mark plus one read, and once all is acknowledged or rolled back the reader is not paused |
| Pump.AccountExact | crates/mast-core/src/session.rs:406-430 | in every run pending falls short of what is outstanding by at most the bytes of earlier epochs taken off it since the last reset, and equals it where there were none |
| Pump.CurrentRunExact | crates/mast-core/src/session.rs:406-430 | in every run whose acks and rollbacks are all of the present epoch, pending is exactly what is outstanding, and a reader in `read` passed the gate with less than the high mark outstanding, or no more than the low one |
| Pump.CurrentSinceReset | crates/mast-core/src/session.rs:406-470 | the same from any flow reset on, whatever came before it |
| Pump.GateExact | crates/mast-core/src/session.rs:634-654 | in every run an unkilled reader at the gate goes on below both marks and goes to sleep when, stale bytes set aside, the high mark is reached and the low one exceeded; a killed one leaves; and only a kill or the end of input ever ends it |
| Pump.NeverWronglyAsleep | crates/mast-core/src/session.rs:406-431 | a reader asleep at the gate is paused and not killed, or a notification is owed |
| Pump.AsleepAfterNotices | crates/mast-core/src/session.rs:634-654 | once the notifications under way have arrived, a reader still asleep is paused and not killed |
| Pump.DetachedReaderRuns | apps/mast/src-tauri/src/commands.rs:269-276 | from the end of a detach to the next mount the reader is never asleep and never paused at the gate, for any marks |
| Sink.TerminalSink.OnOutput | apps/mast/src-tauri/src/sink.rs:104-128 | delivers to the mounted channel; a failed send also empties the slot |
| Sink.AttachGate.Push | apps/mast/src/features/terminal/attach-gate.ts:27-33 | before the snapshot is known a frame waits; afterwards it is shown or dropped by its offset, and every byte is accounted for |
| Sink.AttachGate.OnSnapshot | apps/mast/src/features/terminal/attach-gate.ts:36-50 | judges the waiting frames in order, so what is shown does not depend on who came first |
| Phone.TokenInjective | crates/mast-remote/src/handlers.rs:19-21 | two sessions never share a token |
| Phone.ServeOk | crates/mast-remote/src/handlers.rs:41-69 | whatever session a request was resolved to, its reply is modes plus a tail of that session, or exactly the stretch asked for |
| Phone.ServedExactly | crates/mast-remote/src/handlers.rs:41-69 | the server answers with a full screen exactly when no place is given, it is in another session, or it lies outside what this session retains |
| Phone.ReceiveOk | apps/mast/src/remote/tab-view.ts:261-277 | applying a reply keeps the shown bytes one unbroken piece of one session |
| Phone.PhoneGapFree | apps/mast/src/remote/protocol.ts:55-117 | over any run of output of current and replaced sessions, eviction, resize, restart, polls served late and lost replies, the current phone terminal was given one full screen and then exactly the stream from its end to `since` |
| Phone.ContinuesExactlyWhenItCan | apps/mast/src/remote/protocol.ts:91-117 | a served poll continues the same terminal exactly when session and size are unchanged and its place is retained |
| Phone.ReadyExactly | apps/mast/src/remote/protocol.ts:79-117 | a phone becomes ready only by a full screen and stays ready only by a delta of the same session at the same size |
| Phone.PollExactly | apps/mast/src/remote/protocol.ts:55-117 | what an undisturbed poll does from any reachable state: appends exactly the rest of the stream, or drops the terminal, or, from a phone that was not ready, makes it ready with the session, size, end and first screen of the current session |
| Phone.TwoPollsCatchUp | apps/mast/src/remote/protocol.ts:55-117 | from any reachable state two undisturbed polls bring the phone to the end of the current session at its current size |
| Saver.SaverSlot.Schedule | crates/mast-core/src/persist.rs:580-600 | replaces the waiting state, counts a generation, and keeps the deadline of the first |
| Saver.SaverSlot.WorkerTurn | crates/mast-core/src/persist.rs:641-681 | sleeps, starts a write or leaves, exactly as the slot says |
| Saver.EveryRun | crates/mast-core/src/persist.rs:475-504 | the slot, disk, flush, demand and the two wake-up invariants hold after every run of schedules, flushes, turns, failed writes, spurious wakes and panics |
| Saver.FlushCovers | crates/mast-core/src/persist.rs:603-627 | when a flush has returned acknowledged, the disk holds every schedule made before it began if and only if some write of such a generation succeeded, whatever later writes did |
| Saver.FlushCoversAfterSuccess | crates/mast-core/src/persist.rs:603-627 | in particular it does when the last completed write succeeded |
| Saver.FlushTargetsAllEarlier | crates/mast-core/src/persist.rs:603-627 | the generation a flush waits for is the number of schedules before it |
| Saver.FlushBounded | crates/mast-core/src/persist.rs:603-681 | a flush sees at most two writes complete, however fast others schedule; then its next test returns or its wake-up is on its way, and until then the worker is at it |
| Saver.FlusherNeverLeftAsleep | crates/mast-core/src/persist.rs:520-530 | a flusher asleep whose generation is on record, or whose worker is gone, is owed a notification that makes it test again |
| Saver.AsleepAfterNotices | crates/mast-core/src/persist.rs:520-530 | once the notifications under way have arrived, no flusher sleeps whose generation is on record or whose worker is gone, and no worker on work that is due but for its deadline |
| Saver.FlushReturnsForAReason | crates/mast-core/src/persist.rs:603-627 | a flush returns only when its generation was tried or the worker is gone |
| Saver.ClosedExactly | crates/mast-core/src/persist.rs:629-639 | in every run the saver is closed exactly when it was dropped, and from then on nothing more is scheduled |
| Saver.CloseLosesNothing | crates/mast-core/src/persist.rs:630-681 | a worker that leaves on close has written everything |
| Saver.WritesOnlyWhenDue | crates/mast-core/src/persist.rs:641-681 | an idle worker writes only for a flush, for closing, or once the debounce has run since the oldest schedule not yet written |
| Saver.TurnExactly | crates/mast-core/src/persist.rs:641-681 | in every run, a turn of the worker writes the newest state under its generation if and only if something is unwritten and a waiting flush wants it, the saver is closed, or the debounce has run since the oldest unwritten schedule; it leaves if and only if the saver is closed and all is written; otherwise it sleeps, with a timeout if and only if something is unwritten |
| Saver.NeverSleepsOnWork | crates/mast-core/src/persist.rs:641-681 | the worker never sleeps through due work |
| Saver.FailedWriteIsAcknowledged | crates/mast-core/src/persist.rs:684-691 | a witness: a run in which a flush returns although nothing reached the disk |
| Reset.ResetPolicy.PollNow | crates/mast-core/src/reset.rs:260-292 | one poll fires memory, idle or hidden in that order, or nothing, and updates the fields accordingly |
| Reset.ResetPolicy.Deadline | crates/mast-core/src/reset.rs:222-253 | the earliest of the four candidates, each clamped to the cooldown except the sample |
| Reset.DeadlineExact | crates/mast-core/src/reset.rs:222-292 | with no event between, a poll at any later time fires exactly when that time has reached the least firing candidate computed now |
| Reset.EarlierOnlyForSamples | crates/mast-core/src/reset.rs:222-253 | the wake-up is the earlier of that instant and, with the watchdog on, the instant of the next sample |
| Reset.SleepsExactlyLongEnough | crates/mast-core/src/reset.rs:222-292 | after a poll that fired nothing, with no sample due, the wake-up lies strictly ahead and no earlier poll would fire |
| Reset.EveryTrace | crates/mast-core/src/reset.rs:133-207 | over any trace, hidden-since is set exactly while hidden, and suppressed implies a pending watchdog |
| Reset.FiresExactly | crates/mast-core/src/reset.rs:133-292 | what fires at each event of every trace in time order, by events and earlier fires alone: with every cooldown over, the watchdog at a poll or workspace change while the latest sample is over the limit and unspent; else idle at a poll a full idle time after the start and every input, unless idle fired since the latest input; else hidden at a poll a full hidden time after the stretch of hiding without input began, once per stretch; else nothing |
| Reset.SuppressedExactly | crates/mast-core/src/reset.rs:179-292 | suppressed is reported exactly when a due watchdog was held back by a cooldown and has since neither fired nor seen memory recover |
| Reset.SampleDueExactly | crates/mast-core/src/reset.rs:179-199 | the next sample is due a period after the latest one, or after the start |
| Reset.FiresApart | crates/mast-core/src/reset.rs:306-319 | two fires of any kind are at least a cooldown apart, up to the u64 ceiling |
| Reset.IdleNeedsInput | crates/mast-core/src/reset.rs:260-292 | between two idle fires lies a user input, and none within the idle time before a fire |
| Reset.HiddenOncePerStretch | crates/mast-core/src/reset.rs:158-176 | hidden fires at most once per uninterrupted hidden stretch without input |
| Reset.HiddenFiresAfterHiddenTime | crates/mast-core/src/reset.rs:260-292 | a hidden fire comes only after the configured time of hiding without input |
| Reset.PendingExact | crates/mast-core/src/reset.rs:179-207 | pending means exactly that the latest sample exceeded the limit with no watchdog fire since |
| Layout.OneMoreLeafThanSplits | crates/mast-core/src/model.rs:321-378 | leaves always number split ids plus one |
| Layout.ContainsMeansLeaf | crates/mast-core/src/model.rs:380-386 | containment is membership among the leaves |
| Layout.SplitIdsAreNodes | crates/mast-core/src/model.rs:360-378 | an id is listed exactly when a split of the tree bears it |
| Layout.RatiosAreNodes | crates/mast-core/src/model.rs:340-357 | the ratios are accepted exactly when that of every split in the tree lies strictly between 0 and 1 |
| Layout.SplitExact | crates/mast-core/src/model.rs:250-275 | a split succeeds exactly on a leaf, puts the new pane right after it and adds one split id |
| Layout.SplitReplaces | crates/mast-core/src/model.rs:250-275 | a split puts, at one node that was the target leaf, a split with the given id and direction and even halves, the old pane first, and touches nothing else in the tree |
| Layout.RemoveExact | crates/mast-core/src/model.rs:301-318 | a remove succeeds exactly on a leaf that is not the whole tree, deletes it and one split id, and keeps the order of the rest |
| Layout.RemoveReplaces | crates/mast-core/src/model.rs:301-318 | a remove puts the sibling in place of the split above the pane and touches nothing else in the tree |
| Layout.RemoveUndoesSplit | crates/mast-core/src/model.rs:250-318 | removing the pane just added gives back the very same tree |
| Layout.SetRatioExact | crates/mast-core/src/model.rs:278-298 | succeeds exactly on an existing split and changes that ratio only |
| Layout.SetRatioReplaces | crates/mast-core/src/model.rs:278-298 | setting a ratio changes the ratio of one split with that id and nothing else in the tree |
| Layout.EditsKeepWellFormed | crates/mast-core/src/model.rs:250-318 | any list of edits with new ids and valid ratios keeps leaves and split ids distinct and ratios inside (0,1) |
| Restore.ValidateApp | crates/mast-core/src/persist.rs:335-362 | accepts exactly the states with globally distinct ids, valid workspaces and an existing active workspace |
| Restore.ClaimsMeaning | crates/mast-core/src/persist.rs:335-362 | the ids claimed are those that a workspace, split, pane or tab bears, and they are distinct exactly when no two of these, wherever and of whatever kind, bear the same |
| Restore.ValidExactly | crates/mast-core/src/persist.rs:335-362 | a state is valid if and only if no id is borne twice; in every workspace the panes are exactly the leaves, each once, all ratios lie strictly between 0 and 1, and active pane and tabs exist; and the active workspace exists |
| Restore.RemoveUnknownTabs | crates/mast-core/src/persist.rs:245-269 | the loops remove exactly the named tabs and move the active tab to the first survivor where it went |
| Restore.SanitizeState | crates/mast-core/src/persist.rs:370-407 | the loops clear sessions, statuses and notifications and repair the counter, or refuse when no id is left |
| Restore.StripPaneExact | crates/mast-core/src/persist.rs:245-269 | exactly the named tabs go, the rest keep their order, and the active tab moves to the first survivor only if it went |
| Restore.StripExact | crates/mast-core/src/persist.rs:245-269 | the removal does this to every pane of every workspace and nothing else |
| Restore.SanitizeExact | crates/mast-core/src/persist.rs:370-407 | what sanitizing clears, what it turns back to running, that exits stay exits, and that nothing else changes |
| Restore.StripKeepsValid | crates/mast-core/src/persist.rs:135-145 | removing any set of tabs from a valid state leaves a valid state |
| Restore.SanitizeKeepsValid | crates/mast-core/src/persist.rs:370-407 | sanitizing a valid state leaves it valid |
| Restore.SanitizeIdempotent | crates/mast-core/src/persist.rs:370-407 | a second sanitize changes nothing and reports no repair |
| Restore.AllocCounts | crates/mast-core/src/model.rs:76-80 | successive ids count up from the counter |
| Restore.RestoreSound | crates/mast-core/src/persist.rs:129-158 | a file is refused exactly when its placeholder state is invalid, or some id in use or removed is not below its counter and some such id is the last there is or beyond; otherwise the counter stays if it is positive and above all of these and comes to stand right after the largest if not, the state is valid, and every id allocated from then on differs from every other, from that of every workspace, split, pane and tab before and after the load, and from every removed one |
| Restore.PaneFieldsAvoided | crates/mast-core/src/persist.rs:370-407 | of a file that is restored, future ids avoid every pane's own id field exactly when each such field is below the counter or not above the largest used or removed id |
| Restore.PaneFieldMayCollide | crates/mast-core/src/model.rs:144-182 | a state that is restored unchanged and whose next id equals a pane's own id field |
| ExitAudit.JudgeMeaning | crates/mast-core/src/command/audit.rs:38-82 | which tabs count as dangling and which ids as orphans on either side |
| ExitAudit.AuditRegistries | crates/mast-core/src/command/audit.rs:38-82 | the one-pass judgement with exits in flight left out, in input order |
| ExitAudit.SortedIds | apps/mast/src-tauri/src/state.rs:64-68 | the ids of a registry, each once, ascending |
| ExitAudit.Shared.AuditOnce | apps/mast/src-tauri/src/audit.rs:64-124 | one undisturbed audit converges: afterwards model and both registries agree on every id whose exit is not in flight |
| ExitRuns.Step | apps/mast/src-tauri/src/sink.rs:168-277 | every step of spawns, closes, exits, audits and faults keeps the invariants |
| ExitRuns.NoFalseOrphan | apps/mast/src-tauri/src/audit.rs:64-90 | in every run no session between its model update and its registry release is an orphan, every orphan is a spawn the model never took or was touched by a fault, and only faulty sessions dangle |
| ExitRuns.OrphansExactly | apps/mast/src-tauri/src/audit.rs:64-90 | of the sessions seen, exactly the spawns never taken and not exiting are released |
| ExitRuns.ReleaseIsHarmless | apps/mast/src-tauri/src/audit.rs:113-124 | no tab ever holds a session that an audit set out to release |
| ExitRuns.LockDiscipline | apps/mast/src-tauri/src/audit.rs:64-124 | the dispatcher lock is taken only when free, held through a whole spawn or audit and given back by its holder alone |
| ExitRuns.NothingLeaks | apps/mast/src-tauri/src/state.rs:115-136 | a finished exit leaves no mark and no registry entry |
| ExitRuns.OnlyAdoptedWrite | apps/mast/src-tauri/src/sink.rs:191-250 | only a session the model took may write its tab's record |
| ExitRuns.BarrierExactly | apps/mast/src-tauri/src/sink.rs:198-216 | the test before a record is written succeeds exactly when some tab still holds the session, which the model then took |
| ExitRuns.AbandonedSpawnsCleanUp | apps/mast/src-tauri/src/host.rs:395-430 | in every run a spawn the model did not take leaves nothing registered once its thread is over |
| ExitRuns.ClassifyExactly | apps/mast/src-tauri/src/audit.rs:64-124 | an audit takes from a tab exactly the sessions that one of the registries it read lacks, and sets out to release exactly the orphans |
| ExitRuns.OrderMatters | apps/mast/src-tauri/src/audit.rs:66-72 | reading the registries before the marks would call an ordinary exit an orphan; the order used does not |
| RateLimiter.ShutOutMeaning | crates/mast-remote/src/ratelimit.rs:46-59 | shut out means that some failure less than a window ago was one too many |
| RateLimiter.ElevenClose | crates/mast-remote/src/ratelimit.rs:63-86 | an address is shut out exactly when a failure less than a window ago was the last of eleven within less than a window |
| RateLimiter.PruneTwice | crates/mast-remote/src/ratelimit.rs:73-77 | pruning at an earlier time loses nothing that still counts |
| RateLimiter.RateLimiter.Check | crates/mast-remote/src/ratelimit.rs:46-59 | refuses exactly when the full history says shut out, and makes no entry for an unknown address |
| RateLimiter.RateLimiter.RecordFailure | crates/mast-remote/src/ratelimit.rs:63-86 | blocks exactly when the full history holds more than ten failures in the window, and gives an entry up only when the table is full of addresses seen no earlier |
| RateLimiter.RateLimiter.FailuresInWindow | crates/mast-remote/src/ratelimit.rs:91-99 | counts over the full history |
| Base64.DecodeSendText | crates/mast-core/src/send.rs:106-140 | the one-pass decoder with its never-cleared 32-bit accumulator computes the group-by-group decoding, with the errors in the program's order |
| Base64.EmittedByte | crates/mast-core/src/send.rs:127-137 | what the accumulator keeps from long ago never reaches a byte put out |
| Base64.RoundTrip | crates/mast-core/src/send.rs:106-140 | every byte string up to 32768 bytes comes back from its RFC 4648 encoding, padded or not, and a longer one is turned down with its length |
| Base64.AcceptsExactly | crates/mast-core/src/send.rs:106-140 | exactly which texts are accepted; each gives exactly the length computed beforehand |
| Base64.AlphabetExactly | crates/mast-core/src/send.rs:213-222 | a character stands for a value exactly when it is at that place of the table of RFC 4648 section 4 |
| Base64.DecodesExactly | crates/mast-core/src/send.rs:106-140 | a text is decoded to given bytes if and only if it is digits of that table, not one left over, at most two pads behind them and no more whole bytes in them than the limit |
| Base64.TooLargeExactly | crates/mast-core/src/send.rs:106-140 | a text is turned down for its length exactly when its body holds more whole bytes than the limit, whatever characters it consists of, and the answer names that number |
| Base64.TextRoundTrip | crates/mast-core/src/send.rs:106-140 | re-encoding an accepted text gives it back exactly when its spare bits are zero |
| GitStatus.ParseStatus | crates/mast-core/src/git.rs:370-449 | the loop computes the record-by-record reading, whole or cut off |
| GitStatus.TruncatedIsPrefix | crates/mast-core/src/git.rs:370-449 | the first k bytes of an output that parses give a front part of the same entries or only the missing-HEAD error: no partial name, no rename without its source |
| GitStatus.CutAtTheEnd | crates/mast-core/src/git.rs:370-449 | a cut that takes nothing away loses nothing |
| GitStatus.ParsedSound | crates/mast-core/src/git.rs:336-348 | every path read, sources included, is a checked repository-relative path, and there are at most 5000 entries |
| GitStatus.ReadsWhatIsPrinted | crates/mast-core/src/git.rs:370-449 | any printed list of changes is read back in order with every field in its place, whatever other headers there are; beyond the limit the first entries are kept and flagged |
| GitStatus.ClassifyExactly | crates/mast-core/src/git.rs:370-449 | a record reads as an entry if and only if it is, over its bytes, an untracked line or a line of nine, ten or eleven fields of its kind with two ASCII states and an accepted path |
| GitStatus.UnreadableRefused | crates/mast-core/src/git.rs:370-449 | one record below the limit that is neither a header nor such a line, or a rename without an accepted source, and the whole output is refused |
| GitStatus.IncompleteRefused | crates/mast-core/src/git.rs:370-379 | an output that is not cut off and does not end with a NUL is refused |
| GitStatus.ValidFileExactly | crates/mast-core/src/git.rs:336-348 | the accepted paths are exactly one or more names joined by slashes, none empty, `.` or `..` and none with a NUL, with or without one slash at the end |
| GitStatus.Utf8Exactly | crates/mast-core/src/git.rs:380-385 | a record passes as text exactly when it is the RFC 3629 encoding of Unicode scalar values |
| WslPath.ToUnc | crates/mast-core/src/wslpath.rs:109-123 | the loop assembles host, distro and components, or gives the first reason against it |
| WslPath.JoinTail | crates/mast-core/src/wslpath.rs:217-228 | the loop joins the components of a Windows tail in Linux notation |
| WslPath.StripHost | crates/mast-core/src/wslpath.rs:181-199 | either host name in any case is stripped alike |
| WslPath.UncRoundTrip | crates/mast-core/src/wslpath.rs:109-175 | for every accepted distro and path the way back gives the distro and the path without empty segments |
| WslPath.BackIsFixed | crates/mast-core/src/wslpath.rs:147-175 | everything the way back returns is valid and free of empty segments; a WSL result is accepted by the way forward and maps back to itself |
| WslPath.PathExactly | crates/mast-core/src/wslpath.rs:67-100 | the accepted Linux paths are exactly slashes, any number together, with names between that are no dot component, hold no colon, backslash or NUL, and end in neither dot nor space |
| WslPath.DistroExactly | crates/mast-core/src/wslpath.rs:230-255 | a distro is accepted exactly when it is such a name |
| WslPath.FromExactly | crates/mast-core/src/wslpath.rs:147-228 | a Windows path is accepted if and only if it names a WSL share (either host, any case, either separator) or a drive with such names behind it, and maps to the distro with the path of these names, or to `/mnt`, the letter in lower case and these names |
| WslPath.KindsRefused | crates/mast-core/src/wslpath.rs:147-175 | which paths are turned down as a share without a distro, as a foreign share or device, and as no absolute Windows path |
| WslPath.UncComponents | crates/mast-core/src/wslpath.rs:109-123 | the assembled name has exactly the components host, distro and path, none of them a dot component |

## Left out

- Text conversion of OSC payloads: events carry raw payload bytes; the lossy UTF-8 conversion is not modelled.
- The counters that only feed diagnostics (number of OSC events, last OSC, statistics) and the startup watchdog.
- PTYs, threads, condition variables and clocks: they appear as atomic steps, an owed-notification count and time parameters. Offsets are unbounded; the flow account wraps nothing because its sums stay below `usize`.
- A terminal's reading of modes: it is taken to interpret them as the program's own scanner and tracker do.
- Wire formats: JSON, the 8-byte frame header, the query string and the HTTP headers (including the check that header numbers are safe integers).
- File writing: a write of the saver either succeeds or fails as a whole; temporary files, fsync, rename and backups are not modelled.
- Restoring starts from the typed state and the list of removed tab ids; working directories, titles' contents and the several viewer kinds are folded into one. A pane map is kept as the list of its entries.
- Restore.RestoreSound: ids are unbounded; the counter's own overflow after 2^64 - 1 is not modelled.
- The split tree is edited as a value, not in place behind a mutable borrow; a ratio is a real number or `NotFinite`, which stands for NaN and the infinities, and the rounding of IEEE doubles is not modelled.
- Flow.PendingExact: stated while less than 2^64 bytes are sent in all; beyond that the program's sum saturates.
- Reset.FiresExactly: events come in time order, as the one clock behind them gives it.
- Phone.PhoneGapFree: assumes that a restarted session gets a key (epoch and id) not used before, which the program's counters provide.
- ExitRuns.NoFalseOrphan: the record file itself, the state broadcast and the order of log lines are not modelled; a panic that poisons the dispatcher lock ends the program and is not a step.
- RateLimiter.RateLimiter.RecordFailure: times are taken to be nondecreasing. The server reads the clock just before it takes the limiter's lock, so two threads can swap by the time one waits.
- Which of several equally old entries the rate limiter gives up is left open, as the hash map's order leaves it.
- `decode_reply_path`, `validate_root` and the worktree listing: single checks on top of what is modelled.
- WslPath works on characters; Rust compares the host prefix on bytes, which is the same for this ASCII prefix.
- Dispatcher commands, settings, notifications, the reset supervisor's timer thread and all user-interface code.
