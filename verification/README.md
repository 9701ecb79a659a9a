# The control plane of Hoersaal, modelled and proved

This project models the stateful core of Hoersaal's control plane in Dafny and proves what it promises: the writer
that keeps one slow client from costing the process its memory, the pages and summaries that tell a room who is in
it, the pool of forwarding units and the placer that fills it, the exchange that lets a participant in, the
credential it reads, the forwarding units themselves as their bookkeeper answers for them, and the clock the rest
is driven by. `dafny verify dfyconfig.toml` checks all of it.

Identifiers are byte strings in Go's byte order, instants and durations are integers in nanoseconds, loads are
non-negative reals. What the code reads from outside (the clock, the names it mints, what a unit answers, what a
role may do, the keyed digest) is a parameter.

## How it is laid out

| module | what it is about |
|---|---|
| `Ids`, `Sorting`, `Decimal`, `BigEndian`, `Base64`, `Json`, `JsonReading` | byte order of identifiers, stable sorting, decimal and big-endian numbers, base64url without padding (sections 3.2 and 5 of RFC 4648), strings escaped and read back (section 7 of RFC 8259) |
| `Histories` | the last thing said, and what stands since it was done, over any numbered steps |
| `Sender`, `SenderAnswers`, `SenderStops`, `SenderTiming` | the outbound protocol of `internal/wire/send.go`, as a step system, what its callers are answered, how it comes to its end, and when a write is given up on |
| `TestClock` | `internal/clock/test.go`, with its filter in place over an array |
| `Roomcred` | the room credential and its two inverse codecs |
| `Placement`, `JoinStorm`, `StormPlan` | the placer, and the closed form of many equal arrivals |
| `Pool`, `PoolRuns`, `PoolHistories`, `Serving` | the five-state machine, its runs, each row as what the pool was told, and pool and placer together |
| `Domain`, `DomainHistories` | a conference, and what it holds as what it took |
| `MediaFake`, `FabricRuns`, `FabricHistories`, `FabricAnswers`, `Receptions`, `FaultStreams` | the units of a fabric, what passes between them over runs, what each holds and answers as what it was asked before, what they accept, and the streams they tell of losses over |
| `Presence`, `Paging`, `PageReading`, `Summaries`, `Emitter` | rolls and pages, walks over rooms that change, what a client reads, and the summary: how long and how often |
| `Admission`, `AdmissionRuns`, `Authority`, `Grants`, `Refusals` | the exchange, what becomes of every grant, by what right anybody publishes, what a grant says, and what each refusal means |

Where the code changes fields step by step the model is a class whose methods do the same, and each method is tied
to a function or a relation on values; the laws are proved of those. What such a function leaves behind is tied to the
history: a field is the last thing said of it, a membership what was done and not ended since. Concurrency is modelled
as steps: in `Sender` each action no other goroutine can divide is an event, in `Pool` a collection is a snapshot, then
one answer at a time, and in `AdmissionRuns` an admission is the unit's answer and then the record, with anything in
between.

## Where the code and its comments differ

The model follows the code. Each of these has a lemma with the run or the value that shows it, and the exact
condition under which the comment holds.

- `internal/wire/send.go:119-121` says an accepted message has been promised. A send that is past its stop check
  can queue after the drain has looked (`Sender.AnAcceptedMessageCanBeLeftBehind`). Every accepted message is written
  exactly when no send is between its check and its enqueue as stop closes, runs with a failed write aside
  (`SenderStops.EverythingAcceptedIsWrittenExactlyWhen`).
- `internal/wire/send.go:93-95` says a full queue disconnects the client before `Send` returns. After a deliberate
  close it does not (`Sender.TooSlowNeedNotDisconnect`, `Sender.TooSlowDisconnectsExactlyWhen`).
- `internal/wire/send.go:132-141`: a write of the main loop that fails after a deliberate close is reported nowhere
  and the backlog is dropped (`Sender.AFailureAfterCloseIsForgotten`, `Sender.AFailedWriteIsReportedExactlyWhen`).
- `internal/pool/pool.go:655-657` gives a unit that never answered "that long". The first sweep retires it
  (`PoolRuns.AJoinedUnitIsSweptAtOnce`, `PoolRuns.SweepExactly`).
- `internal/presence/presence.go:366-368` says only an entry no message could carry "under any paging" is refused.
  Asking for more can be answered where asking for less is refused (`Paging.AskingForMoreMayFit`); no page
  size would be answered exactly when no longer run of entries fits (`Paging.NoPagingWouldAnswerExactlyWhen`).
- `internal/presence/presence.go:357-360`: the cursor a client sends back is the identifier it was handed only where
  that is UTF-8, since encoding replaces what is not (`PageReading.APageIsItselfExactlyWhenUtf8`,
  `PageReading.AClientCanMissSomebody`).
- `internal/roomcred/roomcred.go:118-119` says a credential is usable at both ends of its window and not outside it. Its
  window is carried in whole seconds, rounded down, so it can be accepted before the one asked for opens and refused
  before that one ends (`Roomcred.UsableOutsideExactlyWhen`, `Roomcred.OpensEarlyExactlyWhen`,
  `Roomcred.UsableAtTheEndsExactlyWhen`).
- `internal/admission/admission.go:274-275` calls a grant's sources those the unit was told to accept. Of two under one
  identifier a unit keeps the later (`Receptions.ASecondSourceReplacesTheFirst`); it holds them all exactly when no
  two different offers were given one name (`Authority.PublishersWereAuthorised`, `Receptions.AllAreHeldExactlyWhen`).

## Model

| member | source | states |
|---|---|---|
| `Sender.FirstInFirstOut` | internal/wire/send.go:99-113 | In every interleaving of any number of sends, closes and the writer, the messages ever queued are those handed to a write, then one taken and not yet begun, then the queue, in that order, and the queue holds at most 64. |
| `Sender.OneWriteAtATime` | internal/wire/send.go:146-227 | At most one write on the connection is unfinished, and it is the newest; it is one the writer waits for, or the one it gave up on. |
| `Sender.NoWriteAfterAFailure` | internal/wire/send.go:143-173 | Once a write has failed or timed out none is begun, in the main loop or the drain; only the goroutine of a write that was given up on can still enter the connection. |
| `Sender.StopIsMarked` | internal/wire/send.go:235-243 | The history of queued messages only grows, and what was queued when stop closed is marked once and never moved. |
| `Sender.GracefulClose` | internal/wire/send.go:115-130 | After a deliberate close without a failed write, done means that everything queued before stop closed has been written in order and without an error, and what was not is exactly what was queued after the drain had found the queue empty. |
| `Sender.NothingIsLeftBehindExactlyWhen` | internal/wire/send.go:183-198 | From the moment the drain finds the queue empty, no run leaves an accepted message unwritten if and only if no send is then between its stop check and its enqueue. |
| `SenderStops.EverythingAcceptedIsWrittenExactlyWhen` | internal/wire/send.go:115-130 | From the moment a deliberate close has closed stop: every run to done without a failed write has written every accepted message if and only if no send is then past its stop check without having queued, or the write in progress has failed already, so that there is no such run. |
| `Sender.AnAcceptedMessageCanBeLeftBehind` | internal/wire/send.go:99-108 | A run in which a send answers that its message is queued, the sender is closed deliberately, no write fails, and done closes with the message unwritten: the promise in the comment on Close is stronger than the code. |
| `Sender.TooSlowDisconnectsExactlyWhen` | internal/wire/send.go:109-112 | When a send answers that the client is too slow, the connection is closed if and only if the sender was not being closed deliberately or the writer had come to its end. |
| `Sender.TooSlowNeedNotDisconnect` | internal/wire/send.go:93-112 | A run in which a send answers too slow with the connection open and no reason recorded, against the comment on Send. |
| `Sender.TheFirstReasonIsKept` | internal/wire/send.go:252-259 | A recorded reason never changes, whatever happens next. |
| `Sender.WhatDoneMeans` | internal/wire/send.go:132-148 | Done implies that stop is closed and the connection was closed exactly once, and the reason then answered is the one finish first ran with, or else the failure of a write of the drain, or else none. |
| `Sender.AFailedWriteIsReportedExactlyWhen` | internal/wire/send.go:164-166 | The failure of a write is what Err answers if and only if the sender stopped for it, or was closed deliberately with the failure in the drain. |
| `Sender.AFailureAfterCloseIsForgotten` | internal/wire/send.go:164-166 | A run in which a write of the main loop fails after a deliberate close: Err answers nothing and a message queued before stop closed is never written. |
| `SenderAnswers.EachIsAnsweredItsOwn` | internal/wire/send.go:99-130 | Over every interleaving, caller by caller: a send that offered its message is answered that this message is queued or that its client is too slow, one refused at its stop check the reason kept or that the sender is closed, which it then was deliberately, and a close that it has ended, with done closed. |
| `SenderAnswers.AfterStopTheReasonIsAnswered` | internal/wire/send.go:99-104 | Every send that comes after stop has closed is answered, however the run goes on, the fault the sender stopped for and no other; after a deliberate close that it is closed, unless a write of the drain failed, whose failure it is then answered. |
| `SenderAnswers.QueuedExactlyWhenThereIsRoom` | internal/wire/send.go:106-112 | An offered message is queued if and only if fewer than 64 of those queued so far are left when the ones handed to a write and the one in hand are taken away. |
| `SenderAnswers.AcceptedMeansQueued` | internal/wire/send.go:106-108 | Over every interleaving the messages of the sends answered that theirs is queued are, each as many times, the messages that have been queued. |
| `Sender.StoppingProgresses` | internal/wire/send.go:146-198 | Once stop has closed every step of the writer lowers a measure of its position, the queue and the sends past their check, and no other step raises it. |
| `Sender.StoppingIsNeverStuck` | internal/wire/send.go:146-243 | Until done closes there is a definite next step, of the writer or of the caller inside stopOnce, that lowers that measure, or else letting time pass makes the timeout of the write in progress such a step. |
| `Sender.StoppingEnds` | internal/wire/send.go:146-198 | In every run from a closed stop the writer takes at most as many steps as the measure says. |
| `SenderStops.DoneIsReached` | internal/wire/send.go:146-198 | From every state in which stop has closed there is a run to done, without any write having to return. |
| `SenderStops.RunsAreBounded` | internal/wire/send.go:146-243 | Once stop has closed, every run in which nobody else calls and no time passes has at most as many steps as are left for the writer, the callers, stopOnce and the writes, so done cannot be put off for ever. |
| `SenderStops.WhereRunsEnd` | internal/wire/send.go:146-243 | Where the writer and the callers can go no further the sender is done, or the writer waits for a write that has neither returned nor timed out. |
| `Sender.AFaultEndsWriting` | internal/wire/send.go:180-186 | Once stop has closed on a fault at most one further write begins, however the run goes on. |
| `SenderTiming.OneWriteCanBeginAfterAFault` | internal/wire/send.go:146-173 | A run in which a write does begin after stop closed on a fault, so that at most one is the exact bound. |
| `SenderTiming.ATimeoutIsWaitedOut` | internal/wire/send.go:212-227 | Over every run a write is given up on no earlier than ten seconds after the step that began it, and as timed out. |
| `Sender.ClosingWaitsAtMost` | internal/wire/send.go:119-130 | When only writes take time, what passes until done is at most one write timeout for each message queued, each send past its check, and the message in hand. |
| `TestClock.Test.After` | internal/clock/test.go:40-51 | Registers a wait after those already waiting, or delivers it at once with the present instant where it is already due; the new state is the specified one. |
| `TestClock.Test.Compact` | internal/clock/test.go:66-75 | The filter in place over the array of waits leaves exactly those not yet due, in order, and answers exactly those due, in order. |
| `TestClock.Test.Advance` | internal/clock/test.go:57-81 | A negative duration panics and changes nothing; otherwise the clock moves and what came due is delivered by due instant, ties in registration order. |
| `TestClock.AdvanceComposes` | internal/clock/test.go:53-81 | Advancing by a and then by b leaves the same waits and the same deliveries in the same order as advancing by a + b. |
| `TestClock.NowIsWhatItWasMovedTo` | internal/clock/test.go:27-81 | Over every run the clock says its start and the sum of what it was advanced by, and nothing else moves it. |
| `TestClock.RunFaithful` | internal/clock/test.go:36-81 | Over every run, waiting and delivered waits are together exactly those asked for, each once, with the instant asked for. |
| `TestClock.EveryWaitIsDeliveredOnce` | internal/clock/test.go:36-51 | Every wait asked for is delivered exactly once if it is due by now and otherwise not yet, with its due instant, or the instant of asking where that was already due. |
| `TestClock.DeliveriesAreInOrder` | internal/clock/test.go:53-56 | Over every run deliveries are in order of their due instants, ties in registration order, and none is early. |
| `BigEndian.GetPut` | internal/roomcred/roomcred.go:280-298 | Reading back an unsigned number of a given width gives the number. |
| `BigEndian.PutGet` | internal/roomcred/roomcred.go:304-345 | Writing what was read gives the same bytes. |
| `BigEndian.FrontCountsMore` | internal/roomcred/roomcred.go:280-298 | Bytes in front count as many times 256 as there are bytes behind them, which is what tells this byte order from others. |
| `BigEndian.Int64RoundTrip` | internal/roomcred/roomcred.go:290-297 | A count of seconds in 64 bits with a sign survives the conversion to unsigned and back. |
| `Base64.DecodeEncode` | internal/roomcred/roomcred.go:191 | Unpadded base64url text of any bytes decodes to those bytes. |
| `Base64.BitsInOrder` | internal/roomcred/roomcred.go:191 | The four sextets of three bytes are their bits in order. |
| `Base64.EncodeLength` | internal/roomcred/roomcred.go:60 | Text of n bytes has (4n + 2) / 3 symbols. |
| `Roomcred.Encode` | internal/roomcred/roomcred.go:280-298 | The loop over the three fields appends exactly the layout. |
| `Roomcred.Decode` | internal/roomcred/roomcred.go:304-345 | The loop that advances through the payload reads exactly what the layout says, and refuses with the same error in the same order. |
| `Roomcred.LayoutInOrder` | internal/roomcred/roomcred.go:275-298 | Where each part stands in the signed bytes: the version, then conference, subject and role each behind its length, then the two ends of the window, and nothing else. |
| `Roomcred.ParseLayout` | internal/roomcred/roomcred.go:275-345 | Decoding an encoded credential gives it back with its window rounded down to seconds, for all fields of at most 128 bytes. |
| `Roomcred.LayoutParse` | internal/roomcred/roomcred.go:304-345 | Any payload that decodes encodes to the same bytes again. |
| `Roomcred.ParsesExactlyTheLayouts` | internal/roomcred/roomcred.go:304-345 | A payload decodes if and only if it is the layout of some credential with fields that fit. |
| `Roomcred.MintsExactlyWhen` | internal/roomcred/roomcred.go:154-192 | A credential is minted if and only if there is a conference, a role, no field over 128 bytes and a window with two ends that opens before it ends and lasts at most twelve hours; and what is minted verifies for its conference exactly in the window it carries. |
| `Roomcred.MintedTokensAreShort` | internal/roomcred/roomcred.go:58-60 | Every minted token has at most 586 bytes, under the maximum a verifier reads. |
| `Roomcred.MintedTokensVerify` | internal/roomcred/roomcred.go:156-265 | A minted token verified under its key answers by its conference and the rounded window, for every conference and every instant. |
| `Roomcred.VerifiesExactlyWhen` | internal/roomcred/roomcred.go:230-265 | A token is read as a credential if and only if it is short enough, decodes to that credential's layout followed by the tag of it under the key, names the conference and is inside its window. |
| `Roomcred.RefusalsSayWhy` | internal/roomcred/roomcred.go:230-265 | What each refusal of a verifier says of the token: no payload under this key's tag, one of another version or no layout, or claims to another conference or to a window the clock is before or after. |
| `Roomcred.FlooredLifetimeIsBounded` | internal/roomcred/roomcred.go:177-187 | Rounding both ends down leaves a lifetime of at most twelve hours, and not a negative one. |
| `Roomcred.UsableAtTheEndsExactlyWhen` | internal/roomcred/roomcred.go:258-264 | A minted credential is accepted at the instant it was asked to expire if and only if that is a whole second, and at the instant it was asked to open if and only if a whole second follows in its window. |
| `Roomcred.UsableOutsideExactlyWhen` | internal/roomcred/roomcred.go:118-122 | At which instants a minted credential is accepted: before the opening asked for exactly from the start of its second on, within the window exactly up to the start of the second it ends in, and after its end never. |
| `Roomcred.OpensEarlyExactlyWhen` | internal/roomcred/roomcred.go:118-122 | A minted credential is accepted at some instant before the opening asked for if and only if that is not a whole second. |
| `Placement.NewPool` | internal/placement/placement.go:163-177 | Rows make a pool if and only if no identifier is empty and none is held twice, and are kept as given. |
| `Placement.NewConference` | internal/placement/placement.go:412-430 | A record is accepted if and only if it has an identifier, a ceiling of at least one and rows under distinct identifiers. |
| `Placement.Lowest` | internal/placement/placement.go:292-306 | The loop over the rows finds what the specified search finds. |
| `Placement.PlaceConference` | internal/placement/placement.go:273-283 | Answers as the specified placement, for every pool. |
| `Placement.PlaceParticipant` | internal/placement/placement.go:521-548 | Answers as the specified placement, for every pool and conference. |
| `Placement.LowestExactly` | internal/placement/placement.go:284-325 | A unit is found if and only if it is the one minimum by load and then identifier of the eligible units considered, and nobody if and only if there is none. |
| `Placement.RowOrderDoesNotMatter` | internal/placement/placement.go:284-325 | Both placements answer the same for every order of the rows. |
| `Placement.ConferencePlaceExactly` | internal/placement/placement.go:273-283 | A conference goes to the minimum of the eligible units; each refusal says which condition failed. |
| `Placement.ParticipantPlaceExactly` | internal/placement/placement.go:521-548 | A participant goes to the minimum of the carrying units; to the minimum of the others only when no carrying unit is eligible and the conference is below its ceiling; each refusal says which failed. |
| `Placement.GrowingThePoolDoesNotLiftTheCeiling` | internal/placement/placement.go:197-205 | Adding units that do not carry the conference changes the answer that it has reached its unit ceiling in neither direction. |
| `Placement.OccupiedUnitsAreBounded` | internal/placement/placement.go:521-548 | Over any run of arrivals against any pools a conference stays on its units and occupies at most the larger of its ceiling and what it began with. |
| `JoinStorm.StormClosedForm` | internal/placement/placement_test.go:866-956 | From zero loads with equal costs, arrival i lands on unit i / k of the plan, k the number that fills a unit, until the ceiling or the pool is exhausted, and is refused for that reason ever after. |
| `JoinStorm.BelowCeilingExactly` | internal/placement/placement.go:313-315 | A unit of m equal placements is eligible if and only if m is below the ceiling of 0.90 over the cost. |
| `JoinStorm.ThreeHundredArrivals` | internal/placement/placement_test.go:927-948 | Three hundred arrivals of 0.004 land 225 on the first unit and 75 on the second. |
| `StormPlan.EveryPoolHasAPlan` | internal/placement/placement_test.go:866-925 | For every set of unit names and every starting unit there is the plan: the starting unit and then the others by identifier. |
| `Pool.New` | internal/pool/pool.go:376-384 | A pool is made if and only if its key is at least 32 bytes, and holds nothing. |
| `Pool.Pool.EnterAt` | internal/pool/pool.go:413-425 | Requesting and listing: refused for an empty or a held identifier; otherwise the row and the order each gain it. |
| `Pool.Pool.Started` | internal/pool/pool.go:429-441 | The whole new record and the reply, for every record. |
| `Pool.Pool.Reachable` | internal/pool/pool.go:453-465 | The whole new record and the reply; an admitting unit that is unreachable drains. |
| `Pool.Pool.Healthy` | internal/pool/pool.go:474-486 | The whole new record and the reply; an unhealthy unit is gone. |
| `Pool.Pool.Register` | internal/pool/pool.go:498-532 | The whole new record and the reply, the checks in their order. |
| `Pool.Pool.Drain` | internal/pool/pool.go:538-550 | The whole new record and the reply. |
| `Pool.Pool.Retire` | internal/pool/pool.go:555-567 | The whole new record and the reply. |
| `Pool.Pool.Report` | internal/pool/pool.go:572-584 | The whole new record and the reply; a report clears what was committed. |
| `Pool.Pool.Commit` | internal/pool/pool.go:590-605 | The whole new record and the reply. |
| `Pool.Pool.Sweep` | internal/pool/pool.go:663-686 | The loop retires exactly the stale rows and answers with them in the order they entered the pool. |
| `Pool.Pool.WhomToAsk` | internal/pool/pool.go:632-640 | The snapshot a collection takes: the admitting and draining units with a port, in order. |
| `Pool.Pool.Units` | internal/pool/pool.go:697-706 | Every row, sorted by identifier. |
| `Pool.Pool.PlacerView` | internal/pool/pool.go:731-753 | The placer's rows, never refused where every load is one. |
| `Pool.UnitsById` | internal/pool/pool.go:688-706 | The rows come strictly ascending by identifier, so two calls answer the same. |
| `Pool.ViewExactly` | internal/pool/pool.go:719-753 | The view ascends by identifier and holds one row for every admitting, draining or gone unit and no other, with its effective load. |
| `Pool.ViewMirrors` | internal/pool/pool.go:719-753 | The placer is shown every unit but those asked for and those starting, and of each its load, when it gave it, and whether it admits or drains. |
| `Pool.RunKeeps` | internal/pool/pool.go:401-686 | Over every run, with collections split into snapshot, answer and record and interleaved with everything, map and order hold the same distinct keys, an admitting unit is reachable, healthy and has a port, a draining one has a port, and an unhealthy one is gone. |
| `PoolHistories.StandsAsLastBrought` | internal/pool/pool.go:401-686 | Over every run a unit is in the state, and for the cause, that the last operation taken brought it to: asked for, started, registered, drained, retired, found unreachable while admitting or unhealthy, or swept after too long a silence. |
| `PoolHistories.FoundAsLastTold` | internal/pool/pool.go:443-532 | Over every run a unit is reachable and healthy as it was last found, and unreachable before, and has the port it last registered with. |
| `PoolHistories.LoadAsLastTaken` | internal/pool/pool.go:569-584 | Over every run the load on record and its instant are those of the last answer taken from the unit, reported or collected. |
| `PoolHistories.AnsweredByStanding` | internal/pool/pool.go:413-605 | What each operation about a unit is answered, by what the history brought that unit to: taken exactly from the state the move leaves, and otherwise refused for what was wrong. |
| `PoolHistories.RegistersByStanding` | internal/pool/pool.go:498-532 | What a registration is answered, by the same history: taken if and only if it names a unit that is starting and was last found reachable, with a port and a proof that is good. |
| `PoolHistories.ListedAsEntered` | internal/pool/pool.go:413-425 | The pool's order is the order its units entered in. |
| `PoolHistories.InTheOrderEntered` | internal/pool/pool.go:627-686 | A sweep retires and a collection asks in that order, and in every reachable pool those asked are exactly the units that serve. |
| `PoolRuns.StatesNeverFall` | internal/pool/pool.go:413-567 | However a run goes on, a unit stays, its state never falls, one that is gone keeps its cause, and its identifier is never let in again. |
| `PoolRuns.EffectiveLoadIsItsHistory` | internal/pool/pool.go:293-298 | The effective load is the last load the pool recorded from the unit, zero if none, plus every placement committed since. |
| `PoolRuns.LoadsAreLoads` | internal/pool/pool.go:746-752 | Every load a run brings about is one the placer's row accepts, so the view is never refused. |
| `PoolRuns.PayloadNamesUnitAndSecond` | internal/pool/pool.go:334-360 | The covered bytes determine the unit and the second, for identifiers of any length, although the two-byte length wraps. |
| `PoolRuns.AProofAdmitsItsUnitOnly` | internal/pool/pool.go:300-312 | Unless the two payloads concerned have one tag by chance, a proof made for one unit admits no other, and only about the time it was made. |
| `PoolRuns.EveryPortWasRegistered` | internal/pool/pool.go:488-490 | A unit with a port has in its run a registration the pool took, which handed over that port. |
| `PoolRuns.RegistersOnce` | internal/pool/pool.go:488-532 | No unit registers twice in any run. |
| `PoolRuns.SweepExactly` | internal/pool/pool.go:655-686 | In every reachable pool a sweep retires exactly the admitting and draining units that never answered, however lately they joined, and those whose last answer is older than the bound. |
| `PoolRuns.AJoinedUnitIsSweptAtOnce` | internal/pool/pool.go:655-657 | A run in which a unit is retired in the instant it registered, under any bound, against the comment's "for that long". |
| `Serving.ChosenExactly` | internal/placement/placement.go:521-548 | On the pool's own view a participant goes to an admitting unit below the ceiling by its effective load, and no unit it could have gone to instead is less loaded. |
| `Serving.WhoLeavesIsNeverChosenAgain` | internal/pool/pool.go:534-567 | After a drain or a retirement the pool took, however the run goes on, the unit drains for the cause given or is gone, for the cause given where it was retired, and no participant is placed on it. |
| `Serving.CommitsAreNeverRefused` | internal/pool/pool.go:586-605 | After any run, a commit that follows its own placement is taken. |
| `Serving.AnArrivalIsCommitted` | internal/pool/pool.go:586-605 | A participant placed adds what they cost to the load the unit is placed by, and to no other unit's. |
| `Serving.LoadsAreBounded` | internal/pool/pool.go:293-298 | Over any run of serialised placements with anything else in between, no unit's effective load is above the larger of its reported load and 0.90 plus the largest cost. |
| `Serving.OneViewForManyStacksThem` | internal/pool/pool.go:362-366 | Placements decided from one view all go to one unit and every commit is taken, so without the serialisation no bound holds. |
| `Presence.NewRoll` | internal/presence/presence.go:193-232 | A roll is made if and only if every entry has an identifier of its own and those attended to are among them, each once; and it is then the roll of those entries. |
| `Presence.ARollIsOfItsEntries` | internal/presence/presence.go:168-177 | The roll is the same for every order the entries are given in. |
| `Presence.PeopleAtMostEntries` | internal/presence/presence.go:239-241 | There are at most as many people as endpoints. |
| `Presence.PageAfter` | internal/presence/presence.go:369-393 | The page answered is the longest that fits of at most the size asked for; a size out of bounds is refused, and a place from which no number of entries fits is refused. |
| `Presence.Shorten` | internal/presence/presence.go:383-391 | The loop that shortens a page ends at its longest prefix that fits in a message, or at none. |
| `Presence.OneAnswer` | internal/presence/presence.go:369-405 | There is one page that meets that description. |
| `Paging.AWalkListsEverybodyOnce` | internal/presence/presence.go:357-405 | When each page of a walk is taken of a different roll, nobody is listed twice, nobody who was in none of them is listed, and everybody who was in all of them is. |
| `Paging.PagesOfOneRollAreItsEntries` | internal/presence/presence.go:357-405 | The pages of a finished walk of a roll that does not change are end to end its entries, in at most as many pages as entries, or one; that every walk finishes is `Paging.EveryWalkFinishes`. |
| `Paging.EveryWalkFinishes` | internal/presence/presence.go:360-368 | A walk of a roll that does not change, wherever it has come to and whatever sizes it asks for from there, comes to a page without a cursor, its pages then being the entries, or to an entry refused as too large, in at most as many pages as entries or one; where every entry fits it is not refused. |
| `Paging.UnderwayIsShort` | internal/presence/presence.go:360-366 | A walk of a roll that does not change that still has a cursor to send has had fewer pages than there were entries past the cursor it began with, so none goes on for ever. |
| `Paging.PagesAreNeverRefused` | internal/presence/presence.go:383-391 | Where every entry fits in a message with its own identifier as the cursor, no page is refused. |
| `Paging.AskingForMoreMayFit` | internal/presence/presence.go:365-368 | Rolls for which asking for one entry is refused and asking for two is answered, against the comment's "under any paging". |
| `Paging.NoPagingWouldAnswerExactlyWhen` | internal/presence/presence.go:365-368 | A refusal is one that every page size would meet with if and only if no longer run of entries makes a message that fits, in lengths. |
| `Paging.PageMessageLength` | internal/presence/presence.go:334-355 | How long the message of a page is, in terms of its escaped texts and decimal widths. |
| `Summaries.SummaryLength` | internal/presence/presence.go:283-309 | How long a summary's message is: the entries it names and five decimal widths. |
| `Summaries.ASummaryIsReadBack` | internal/presence/presence.go:254-309 | A client that reads a summary's message, type and members by name, has the revision, the roll's counts, those attended to in order and how many they were. |
| `Summaries.ASummaryDoesNotGrowWithTheRoom` | internal/presence/presence.go:16-20 | For every roll a summary is at most eight times the longest entry and a constant, and beyond that the digits of the revision and of the number in the room. |
| `JsonReading.ReadEscaped` | internal/presence/presence.go:340-355 | A string written into a message reads back, by the grammar, as the text it was, each byte that is not UTF-8 replaced. |
| `JsonReading.SurvivesExactlyWhenUtf8` | internal/presence/presence.go:340-355 | It reads back as itself if and only if it is UTF-8. |
| `PageReading.APageIsReadBack` | internal/presence/presence.go:334-355 | A client that reads a page's message, type and members by name, has its entries in order, its cursor and its total. |
| `PageReading.APageIsItselfExactlyWhenUtf8` | internal/presence/presence.go:334-355 | What it has is the page itself if and only if every text in it is UTF-8. |
| `PageReading.AClientCanMissSomebody` | internal/presence/presence.go:357-360 | Two participants whose identifiers are not UTF-8, of whom a client asking for one at a time is answered with the first, if and only if that one fits in a message, and past the cursor as it read it with nobody and no cursor. |
| `Json.EscapedLength` | internal/presence/presence.go:334-355 | Escaping never shortens a text and at most multiplies it by six. |
| `Json.PlainIsWrittenAsIs` | internal/presence/presence.go:334-355 | A text of plain bytes is written as it is. |
| `Decimal.ValueDigits` | internal/mediafake/mediafake.go:561 | The decimal digits of a number read back as the number. |
| `Emitter.NewEmitter` | internal/presence/presence.go:438-443 | An emitter is made if and only if its window is positive, and has nothing pending. |
| `Emitter.Emitter.Take` | internal/presence/presence.go:458-471 | The whole new state and the answer. |
| `Emitter.Emitter.Wait` | internal/presence/presence.go:476-488 | The answer, for every state and instant. |
| `Emitter.TrafficIsBoundedByTime` | internal/presence/presence.go:417-425 | Over any run, n summaries take at least n - 1 windows from the first to the last, and the revision is their number modulo the width of the counter. |
| `Emitter.TakesAreAnsweredExactly` | internal/presence/presence.go:453-471 | The nth summary is answered as revision n and due, and any other take with how many there have been; one is due if and only if something was noted since the last and that was a window ago or longer, or there was none. |
| `Emitter.PendingExactly` | internal/presence/presence.go:445-471 | A change is waiting if and only if one was noted and no summary was taken since. |
| `Emitter.WaitsAreExact` | internal/presence/presence.go:473-488 | Whatever is noted and asked meanwhile, no summary is due before the time a wait answered has passed, and one is at every moment from then on. |
| `Emitter.WaitsAreAnsweredExactlyWhen` | internal/presence/presence.go:473-488 | A wait is answered if and only if a change was noted and not taken since, and never with a time that has passed. |
| `Domain.NewConference` | internal/domain/domain.go:309-319 | A conference is made if and only if it has an identifier, and is empty. |
| `Domain.Conference.Admit` | internal/domain/domain.go:328-340 | The whole new conference and the reply. |
| `Domain.Conference.Publish` | internal/domain/domain.go:344-356 | The whole new conference and the reply. |
| `Domain.Conference.Subscribe` | internal/domain/domain.go:362-381 | The whole new conference and the reply. |
| `Domain.Conference.Reception` | internal/domain/domain.go:419-428 | Whatever order the map is met in, each subscription of the participant once, by source identifier. |
| `Domain.Conference.IdentityCount` | internal/domain/domain.go:401-407 | The number of different identities among the participants. |
| `Domain.OneReception` | internal/domain/domain.go:409-418 | There is one such list, so two calls answer the same. |
| `Domain.RunKeeps` | internal/domain/domain.go:284-381 | Over every run, sources belong to participants held, and a subscription is of a participant held to a source held, not its own, at a layer offered. |
| `DomainHistories.ParticipantsAsAdmitted` | internal/domain/domain.go:328-340 | A conference holds a participant if and only if that participant, with that identity and role, was admitted at some step. |
| `DomainHistories.SourcesAsPublished` | internal/domain/domain.go:344-356 | A conference holds a source if and only if that source, of that kind and with those layers, was published at some step. |
| `DomainHistories.SubscribedAsLastTaken` | internal/domain/domain.go:362-381 | Between a participant and a source it holds the subscription last taken. |
| `DomainHistories.FirstStays` | internal/domain/domain.go:325-356 | Of one identifier one participant at most is ever admitted and one source at most ever published, so the first stays. |
| `DomainHistories.EntersExactlyWhen` | internal/domain/domain.go:328-356 | What an admission and a publication are answered, by who was admitted and what published before. |
| `DomainHistories.SubscribesExactlyWhen` | internal/domain/domain.go:362-381 | What a subscription is answered, by the same: taken if and only if from somebody admitted, to a source somebody else published that offers the layer. |
| `Domain.ReceptionsAreUsable` | internal/domain/domain.go:415-418 | The set handed to a unit names each source once, none the subscriber's own, each at a layer it offers. |
| `Domain.PeopleAndEndpoints` | internal/domain/domain.go:399-407 | There are as many people as endpoints if and only if nobody joined twice, and never more. |
| `MediaFake.Fabric.Add` | internal/mediafake/mediafake.go:51-74 | A unit is added if and only if its name is not empty and not held, and begins with nothing. |
| `MediaFake.Fabric.Restart` | internal/mediafake/mediafake.go:243-251 | Everything held is lost and nothing is held; no other unit is touched. |
| `MediaFake.Fabric.OpenConference` | internal/mediafake/mediafake.go:370-395 | The whole new fabric and the reply, the checks in their order. |
| `MediaFake.Fabric.CloseConference` | internal/mediafake/mediafake.go:400-419 | The conference leaves the unit, and every other unit's link of it to this one; nothing else changes. |
| `MediaFake.Fabric.AdmitPublisher` | internal/mediafake/mediafake.go:422-457 | The whole new fabric, the reply and the transport. |
| `MediaFake.Fabric.AdmitSubscriber` | internal/mediafake/mediafake.go:460-481 | The whole new fabric, the reply and the transport. |
| `MediaFake.Fabric.Ask` | internal/mediafake/mediafake.go:607-630 | What every operation asks first; a loss is told of and forgotten. |
| `MediaFake.Fabric.Sources` | internal/mediafake/mediafake.go:325-333 | Whatever order the maps are met in, exactly the sources that reach the unit, by identifier. |
| `MediaFake.Fabric.SetReception` | internal/mediafake/mediafake.go:484-531 | The whole new fabric, the reply and the accepted set, for some choice among sources that share an identifier. |
| `MediaFake.Fabric.LinkConference` | internal/mediafake/mediafake.go:537-567 | The whole new fabric, the reply and the link, an existing one answered again. |
| `FabricRuns.LinkHeldExactly` | internal/mediafake/mediafake.go:537-567 | A unit holds a link if and only if it answered one and since then has not restarted and neither unit has closed the conference. |
| `FabricRuns.SpansExactly` | internal/mediafake/mediafake.go:632-666 | A unit can forward what another holds if and only if both have answered a link since either last closed the conference and each since it last restarted; and this is symmetric. |
| `FabricRuns.NothingPassesAClosing` | internal/mediafake/mediafake.go:400-419 | After either unit has closed the conference nothing passes between them until both have been asked for a link again and answered. |
| `FabricRuns.ARestartKeepsTheFarLink` | internal/mediafake/mediafake.go:243-251 | After a restart the other side's link stands: one link by the restarted unit makes everything pass again. |
| `FabricRuns.EveryLossIsToldOfAtMostOnce` | internal/mediafake/mediafake.go:235-251 | Held and lost conferences are disjoint, and losses told, with the one still to tell, are at most the restarts that took the conference away. |
| `FabricRuns.LostIsAnsweredExactlyWhen` | internal/mediafake/mediafake.go:607-619 | An operation is told a conference is lost if and only if the unit answers and restarted while holding it, and nothing has been told of it and it has not been closed since. |
| `FabricRuns.LinkIdsNeverRepeat` | internal/mediafake/mediafake.go:560-566 | No two links a unit ever makes carry the same identifier, whatever the names of the units at the other end. |
| `FabricRuns.LinksOfTwoUnitsCanMeetExactlyWhen` | internal/mediafake/mediafake.go:560-566 | For any names there is a run in which links of two different units carry one identifier if and only if the one name, a dash and the name it is linked to read as the other pair does. |
| `FabricRuns.WithoutDashesTheyNeverMeet` | internal/mediafake/mediafake.go:560-566 | Where the names units are linked to hold no dash, no run brings that about. |
| `FabricRuns.LinkIdsOfTwoUnitsCanMeet` | internal/mediafake/mediafake.go:560-566 | A run after which unit a is linked to b-c and unit a-b to c under one identifier. |
| `FabricRuns.TransportsTellApart` | internal/mediafake/mediafake.go:670-674 | What a participant connects by begins with the unit's reference and tells units, conferences and participants apart where the first two hold no slash. |
| `FabricHistories.HeldExactly` | internal/mediafake/mediafake.go:370-419 | Over every run a unit holds a conference if and only if it answered that it opened it and has neither restarted nor closed it since. |
| `FabricHistories.HeldUnderTheProfileOpened` | internal/mediafake/mediafake.go:370-395 | And holds it under the profile it was last opened with. |
| `FabricHistories.SubscribersExactly` | internal/mediafake/mediafake.go:460-481 | Over every run somebody is a subscriber of a conference on a unit if and only if the unit answered that it admitted them as one and has neither restarted nor closed the conference since. |
| `FabricHistories.PublishersExactly` | internal/mediafake/mediafake.go:422-457 | And a publisher if and only if it answered that it admitted them to publish since. |
| `FabricHistories.SourcesExactly` | internal/mediafake/mediafake.go:422-457 | A unit holds a source if and only if it admitted a publisher with it, last in that admission under its identifier, and has neither restarted nor closed the conference since. |
| `FabricHistories.SentAsLastTaken` | internal/mediafake/mediafake.go:484-531 | What a unit sends somebody is what it made of the last set it took for them since it last restarted or closed the conference. |
| `FabricHistories.SetAsLastSet` | internal/mediafake/mediafake.go:184-251 | A unit answers if and only if it was added or restarted after it last died, and is set as it was last set, restarts notwithstanding. |
| `FabricAnswers.OpeningIsAnswered` | internal/mediafake/mediafake.go:370-395 | What opening a conference is answered, by that history: again under the same profile it is done, under another a conflict. |
| `FabricAnswers.AdmitsToReceiveExactlyWhen` | internal/mediafake/mediafake.go:460-481 | A participant is admitted to receive if and only if the unit is up, holds the conference, is not set to refuse and has not admitted them since it opened it. |
| `FabricAnswers.WhyNotToReceive` | internal/mediafake/mediafake.go:460-481 | And each refusal says which of these it was. |
| `FabricAnswers.AdmitsToPublishExactlyWhen` | internal/mediafake/mediafake.go:422-457 | A participant is admitted to publish if and only if the same holds for publishers and every source is theirs, inside the profile and under an identifier not held. |
| `FabricAnswers.WhyNotToPublish` | internal/mediafake/mediafake.go:422-457 | And each refusal says which it was, of the sources by the first that cannot be taken. |
| `FabricAnswers.ReceptionIsAnswered` | internal/mediafake/mediafake.go:484-531 | What telling a unit what somebody is to receive is answered, by the same history. |
| `FabricAnswers.LinkIsAnswered` | internal/mediafake/mediafake.go:537-567 | What asking for a link is answered, by the same history. |
| `FabricAnswers.LinksKeepTheirIdentifier` | internal/mediafake/mediafake.go:553-566 | A link goes by the identifier it was made under, with the number after those the unit had made, for as long as it is held. |
| `FabricAnswers.LinksAreCounted` | internal/mediafake/mediafake.go:560-566 | A unit's counter is how many links it has made, restarts and closings notwithstanding. |
| `Receptions.SourcesTakenExactly` | internal/mediafake/mediafake.go:437-447 | A publisher's sources are taken if and only if every one is its own, inside the profile and under an identifier not held. |
| `Receptions.AllAreHeldExactlyWhen` | internal/mediafake/mediafake.go:452-455 | Every source of an admission is held afterwards if and only if no two different ones share an identifier. |
| `Receptions.RunKeeps` | internal/mediafake/mediafake.go:422-531 | Over every run, every source held is inside the profile, by an admitted publisher and under its own identifier, and every reception is its subscriber's own, in order and without repetition. |
| `Receptions.ASecondSourceReplacesTheFirst` | internal/mediafake/mediafake.go:437-455 | Two sources under one identifier in one admission are not refused, and the later stands in for the earlier. |
| `Receptions.ReceptionsAreTakenWholeExactlyWhen` | internal/mediafake/mediafake.go:484-531 | The reception of any reachable conference is accepted whole and unchanged if and only if the unit answers and holds it, the subscriber is admitted, the cap allows, and every source in it reaches the unit. |
| `Receptions.WhatIsTakenIsSent` | internal/mediafake/mediafake.go:520-531 | What was accepted is what the unit then holds for the subscriber: part of what was asked, in order, as much as the cap allows. |
| `FaultStreams.Unit.ReportFaults` | internal/mediafake/mediafake.go:581-591 | A stream is opened, empty, if and only if the unit answers. |
| `FaultStreams.Unit.DeliverAll` | internal/mediafake/mediafake.go:256-267 | The filter in place over the streams delivers once to each and keeps exactly those still open, in order. |
| `FaultStreams.Unit.Fail` | internal/mediafake/mediafake.go:256-267 | The whole new state. |
| `FaultStreams.Unit.Die` | internal/mediafake/mediafake.go:225-233 | The whole new state: every stream still open breaks. |
| `FaultStreams.RunKeeps` | internal/mediafake/mediafake.go:581-591 | Over every run the unit delivers to every stream that has not ended, to each once, and no reader has more than 64 notices waiting. |
| `FaultStreams.OpensExactlyWhenAlive` | internal/mediafake/mediafake.go:581-591 | A stream is given, and runs, if and only if the unit has not died since it last came up. |
| `FaultStreams.AReaderIsGivenTheNext` | internal/mediafake/mediafake.go:720-755 | A reader is given the first notice told since its stream was opened that it has not had, and nothing where none waits. |
| `FaultStreams.EndedExactlyWhen` | internal/mediafake/mediafake.go:730-765 | A stream has ended if and only if its reader stopped it or it broke. |
| `FaultStreams.NothingIsMissedWhileItRuns` | internal/mediafake/mediafake.go:742-755 | What a reader has read and has waiting is a run without a gap of what the unit told since the stream was opened, and all of it while the stream runs. |
| `FaultStreams.BrokenExactlyWhen` | internal/mediafake/mediafake.go:730-765 | A stream says it broke if and only if while it ran the unit died or told of more than its reader had room for. |
| `Admission.NewDesk` | internal/admission/admission.go:352-382 | A desk is made if and only if its window is not negative, with two minutes for none, and nothing is outstanding. |
| `Admission.Desk.Decided` | internal/admission/admission.go:423-497 | Everything decided before a unit is asked, the checks in their order. |
| `Admission.Desk.Mint` | internal/admission/admission.go:609-643 | The loop over the offers makes what the specification makes, and stops where it stops. |
| `Admission.Desk.Admit` | internal/admission/admission.go:423-545 | The whole new state of the units and of the outstanding admissions, and the outcome. |
| `Admission.Desk.Arrived` | internal/admission/admission.go:550-556 | Answers whether the admission was outstanding, which it then is not. |
| `Admission.Desk.Sweep` | internal/admission/admission.go:565-586 | Whatever order the map is met in, exactly the admissions whose deadline has come, by instant and participant, and exactly they leave. |
| `Admission.OneSweep` | internal/admission/admission.go:558-561 | There is one answer to a sweep. |
| `Admission.OldestFirst` | internal/admission/admission.go:558-586 | Of two admissions a sweep answers, one comes before the other if and only if it was granted first, or in the same instant to the lesser identifier. |
| `AdmissionRuns.AnAdmissionIsItsTwoSteps` | internal/admission/admission.go:499-544 | The two steps of an admission one after the other are the whole of it, as the desk makes it. |
| `AdmissionRuns.GrantsAreConserved` | internal/admission/admission.go:534-586 | Over every run, with any number of admissions between the unit's answer and the record, everybody let in is recorded or still to be, and every grant arrived, was swept, is outstanding or was replaced by another under its identifier, each counted once. |
| `AdmissionRuns.AFreshGrantIsInOnePlace` | internal/admission/admission.go:534-586 | With identifiers never given out twice, everybody let in is waiting to be recorded, outstanding, arrived or swept, disjointly, and leaves once. |
| `AdmissionRuns.OutstandingIsGranted` | internal/admission/admission.go:509-542 | What is outstanding is the record of somebody a unit let in earlier in the run, with a deadline one window after the record. |
| `AdmissionRuns.SweepsAreExact` | internal/admission/admission.go:558-586 | A sweep answers exactly the outstanding grants recorded at least a window before. |
| `Authority.AsksAUnitExactlyWhen` | internal/admission/admission.go:423-497 | A unit is asked if and only if the records agree, the request is one for this room, the credential verifies for it with a role that may do what is asked, the room is open, there are names and sources for every offer, and the placer names a unit there is. |
| `Authority.MintsExactlyWhen` | internal/admission/admission.go:605-643 | Every offer becomes a source if and only if each is of a known kind and at least one layer and has a name. |
| `Authority.MintedMatches` | internal/admission/admission.go:605-643 | The sources minted are one for each offer, in order, of its kind and layers, naming the participant; or fewer, where an offer is refused. |
| `Authority.SourcesAgreeExactlyWhen` | internal/admission/admission.go:622-643 | Two sources minted under one identifier are one source if and only if the offers given that name are one offer. |
| `Authority.GrantsRestOn` | internal/admission/admission.go:443-497 | Whoever a unit lets in has a credential tagged under the key for that room and read within its window, whose role may publish if they do, with one source for each offer, under the names minted for it. |
| `Grants.GrantsSayWhatWasAsked` | internal/admission/admission.go:423-545 | What every grant an admission answers with says: the room asked for, the first name minted, the placer's unit, one source for each offer, identity and role of a credential that verified and permits it, and a deadline one window on; and the record kept is of it. |
| `Grants.GrantsInARun` | internal/admission/admission.go:423-545 | The same of every grant of a run with any number of admissions under way, traced to the request it was asked with. |
| `Authority.ARefusalChangesNothing` | internal/admission/admission.go:417-507 | A refused or failed admission leaves every unit's conferences and the outstanding admissions as they were. |
| `Authority.PublishersWereAuthorised` | internal/admission/admission.go:455-507 | Over every run in which participants are let in through the desk only, with any number of admissions under way, each publisher a unit holds was let in by an admission to that unit and room on a verified credential whose role may publish; and it holds a source for each offer if and only if no two different offers were given one name. |
| `Authority.SourcesWereGranted` | internal/mediafake/mediafake.go:422-457 | Over every such run, each source a unit holds is one such an admission minted for that unit and room. |
| `Authority.TheOutstandingWereAuthorised` | internal/admission/admission.go:509-542 | Over every such run, whoever is outstanding was let in by such an admission and then recorded. |
| `Refusals.RefusedBeforeAsking` | internal/admission/admission.go:431-497 | Every refusal made before a unit is asked says what stood in the way: the message, an offer of no kind or no layer, the credential, the role, the room, the pool, the ceiling or a unit that is not there. |
| `Refusals.DecidedInOrder` | internal/admission/admission.go:423-497 | What an admission comes to before a unit is asked: the first question that fails, in the order they are asked in, decides the answer, and where none does the placer's unit is asked. |
| `Refusals.RefusedByTheUnit` | internal/admission/admission.go:697-719 | Every refusal by a unit says which of its answers it was. |
| `Refusals.RefusalsSayWhy` | internal/admission/admission.go:123-177 | The reason a client is told determines what was true of the request, the room, the pool or the unit. |

## Left out

- Sender: the step system stands in for goroutines and channels, because Dafny's methods do not run concurrently; `conn.Close` and its `sync.Once` are one step, and the goroutine of a write that never returns is a write that stays unfinished.
- Envelope decoding (`internal/wire/wire.go:88-181`) and the decoding of an admission request: what a message decodes to is a parameter, and of encoding only the messages presence sends are modelled.
- Reading a message in general: `PageReading` reads the members in the order they are written in, and no white space between them.
- The keyed digest (section 2 of RFC 2104) is a function nothing is assumed of but the length of its answer; `PoolRuns.AProofAdmitsItsUnitOnly` leaves out the case that the two payloads it speaks of have one tag. That only who holds the key can make a tag is outside the model: `Authority.Credited` says that the credential carries the tag of its own layout.
- Base64 is the decoder as Go documents it: line breaks are skipped and trailing bits are not checked, so more than one text can decode to one credential.
- A missing clock or seam, which has no value here, and a credential key that is too short (`NewIssuer`, `NewVerifier`).
- Rounding of loads and NaN, `time.Time` overflow and the saturation of durations, error texts, formatting, and the read-only accessors.
- Pool: rows and units are values in a map the methods reassign, where the code updates them through pointers; nothing outside the package holds such a pointer.
- MediaFake: all units of a fabric are rows of one class, for the same reason, and the latency and load settings, which no other answer depends on, are not modelled; `FaultStreams` models the streams of a unit apart from the rest of it.
- The fan-out of a summary, and the accessors that copy; a walk is described by the pages it was answered with.
- JoinStorm: the storm is against the placer with loads kept by the caller, as in the placer's own tests; with the pool in between, `Serving` gives the bound instead of the closed form.
- AdmissionRuns: up to the unit's answer an admission is one step, since before it asks the unit it reads nothing that changes but which units there are, and those are only added to.
- Which unit an identifier names is the fabric's own record, so a unit the deployment cannot reach is one not in it.
- The source and document checkers, configuration, command line, provisioning and their fakes: they would only add easy members.
