# WebRTC mesh platform: verified core

A Dafny model of the in-memory core of a conferencing platform, with proofs of what that core promises.
At its centre is the room lifecycle of the signaling gateway. A shard keeps its rooms in an LRU cache, its
connections in a table and its timers on a bitmapped time wheel; sessions admit peers, calibrate limits,
pause and resume; a janitor turns the wheel once a minute and closes rooms. Around it stand the lock-free
rate limiter, the consistent hash ring of the routing proxy, the T9 prefix engine, the JWT issuer and
validator, the SDP rewriter and the chat log's batch worker.

## How it is built

Every mutable structure is modelled twice. A class has the fields and loops of the Go struct, and each of
its methods is proved equal to one step of a mathematical state. The theorems are then about those states:
about single steps, about whole runs, and about all interleavings.

| files | what they hold |
|---|---|
| `Bits`, `Schedule`, `TimeWheel` | single-bit reasoning; the timetable "key has n ticks left"; the wheel class that refines it |
| `Recency`, `LruCache` | the recency list and its trace theorems; the doubly linked list on the heap that refines it |
| `RoomMachine`, `RoomHistory`, `RoomTimers`, `RoomWatch`, `RoomDeadline`, `RoomWindow`, `RoomExamined`, `RoomPause`, `RoomPauseCases`, `RoomCapacity`, `RoomCases` | the shard as a state machine, one event per locked section, the theorems about its runs, and the runs that show their limits |
| `RoomSteps`, `RoomShard` | the same steps as record updates; the shard class, over room objects, cache and wheel, that performs them |
| `TokenBucket`, `Allowance`, `RateBound` | the two compare-and-swaps of `Allow`, interleaved, with 64-bit arithmetic; exactly what an undisturbed caller is granted; exactly when the rate is kept |
| `Numerals`, `HashRing` | decimal numerals and that they read back; the ring, its routing specification, minimal disruption and order independence |
| `KeyboardLayout`, `T9Prefix` | the layout tables; the mutable trie |
| `Text`, `Base64Url`, `Jwt`, `Sdp`, `ChatBatch` | split and join; unpadded base64url (section 5 of RFC 4648); the compact token form (section 7.1 of RFC 7515); the `b=AS` line (section 5.8 of RFC 8866); the batch log |
| `Wrappers`, `Numbers` | Option and Result; Max and Min |

How the heap and the theorems meet: the methods of `RoomShard` promise `RoomMachine.Step`, the function that
the run theorems are about. `RoomSteps` writes that function out event by event, in the order in which the
handlers work, which is how the methods are proved. The janitor's list of expired ids and the id it is
closing while it broadcasts without the lock are part of the state, because the interleaving theorems depend
on them.

## What the proofs found

- A goroutine in `Allow` reads the clock before the shared words, so a late one can store a clock reading that
  is earlier than the committed one; the same time is then credited twice. Under a clock that never goes back,
  n goroutines keep the rate in every run if and only if n <= 1, or there is no token, or no refill, or one
  token for two goroutines (`RateBound.RateKeptIff`). So the gateway's limiter of five tokens and five a second does
  not keep it: `TwoGoroutinesBreakRate` is the run. What holds in every run is the bound for the time that the
  code itself takes to have passed (`GrantsWithinForwardTime`).
- A moderator's `join` that sets the duration while the room is paused is later compensated for the whole
  pause, not for the part after the calibration. `PausedCalibrationOvercounts` gives the exact excess, and
  shows that there is none if and only if the pause began at the calibration; `PausedCalibrationHappens` is a
  run in which a minute too many is counted.
- While the janitor broadcasts `force_kick` it has released the lock, and sessions can bring the room back to
  life; it is closed all the same. `RoomWindow.ClosesLiveRoomIffRevived` says exactly when: if and only if some
  event of the window is a join that leaves the room a deadline to come, or ends a pause and leaves it peers
  and a deadline to come. `GuestLosesRoom` is a run in which it happens. And whoever connects in the window
  loses the connection (`ConnectedTooLate`).
- The janitor does not look at the pause flag. The 300th tick after a pause closes the room, still paused, if
  and only if it is empty or its old deadline has come (`PausedRoomAt300thTick`); `PausedRoomIsClosed` is a run
  in which it does.
- The comments say that `Remove` erases a key from all indexes and that `Move` carries it from its old slot.
  The code, and the model, take out the entry in the lowest slot only, and `Add` does not remove an older
  entry. `RemoveClearsIffSingle` and `MoveCarriesIffLowestOnly` give the exact conditions under which the
  comments hold, and `RemoveLeavesSecondEntry` an input for which they do not.
- Sessions can keep a room from ever being examined by calibrating it before each tick. It is certain that a
  cached room will be examined if and only if the janitor holds its id already (`ExaminedIffPending`).
- A room that is evicted from the cache leaves its wheel entries and connections behind
  (`EvictionLeavesTraces`).
- The order of `AddNode` calls matters if and only if two nodes share a ring point.

## Conventions

- Times are integers in nanoseconds. `Duration.Minutes()` followed by `int` truncates to whole minutes, and
  at the magnitudes that occur its floating-point rounding never reaches the next minute.
- Where a clock is read several times in one locked section, the section has one reading.
- The unset `UpdatedAt` of `CreateRoom` is `ZERO_TIME`, the first instant of year 1.
- Clocks, the order in which a Go map is walked, the scheduler and the success of opening a file are
  inputs: every theorem holds for all of them. The hash of the ring, HMAC-SHA256 and the JSON reader are
  arbitrary functions; one secret stands for the constant that both token services hold.
- `join` numbers are optional integers: what `Sscanf` made of the two text fields, if anything.
- `sort.Slice` is an insertion sort and `sort.Search` a binary search, both proved.

## Model

| member | source | states |
|---|---|---|
| Schedule.Ahead | internal/pkg/timewheel/tw.go:31 | Minutes ahead as ticks left, for every count: n in 1..300 means the n-th tick, 0 means a full turn, the rest counts modulo the ring |
| Schedule.LowestSlot | internal/pkg/timewheel/tw.go:49-55 | The slot found holds the key and no lower slot does; 300 means that none does |
| Schedule.AbsentMeansNoSlot | internal/pkg/timewheel/tw.go:48-55 | The search for a key fails if and only if no slot holds it |
| Schedule.OthersUntouched | internal/pkg/timewheel/tw.go:27-73 | Adding, moving or removing one key leaves the entries of every other key in place |
| Schedule.Undisturbed | internal/pkg/timewheel/tw.go:76-102 | While nothing mentions a key, each future report contains it exactly as its ticks left say, and its remaining entries move up by the ticks made |
| Schedule.ReportedExactlyOnTime | internal/pkg/timewheel/tw.go:27-102 | A key added n minutes ahead and then left alone is reported by the n-th following tick (modulo 300) and by no other |
| Schedule.EntryStays | internal/pkg/timewheel/tw.go:27-73 | An entry survives everything but a tick, a Move or a Remove of its own key |
| Schedule.EntryReportedOnTime | internal/pkg/timewheel/tw.go:27-102 | Further additions of the same key do not disturb an entry: it is reported on its own tick, or still waits with the ticks it has left |
| Schedule.RemoveTakesOne | internal/pkg/timewheel/tw.go:105-120 | Remove takes out exactly one entry of a scheduled key, and none of any other key |
| Schedule.PutBringsOne | internal/pkg/timewheel/tw.go:36-37 | An addition brings one entry, or none if the slot holds the key already |
| Schedule.StepConserves | internal/pkg/timewheel/tw.go:27-120 | For each operation: entries after + removed + reported = entries before + entered |
| Schedule.RunConserves | internal/pkg/timewheel/tw.go:27-120 | The same balance over every sequence of operations: no entry is lost or doubled |
| Schedule.ReportedFlowCountsReports | internal/pkg/timewheel/tw.go:91-96 | The reported part of the balance is the number of ticks that return the key |
| Schedule.UniqueKept | internal/pkg/timewheel/tw.go:27-120 | A key in at most one slot stays so under every operation, for Add provided that it is absent |
| Schedule.RemoveClearsIffSingle | internal/pkg/timewheel/tw.go:105-120 | Remove takes a key off the wheel altogether if and only if it has at most one entry |
| Schedule.MoveCarriesIffLowestOnly | internal/pkg/timewheel/tw.go:43-73 | Move leaves a key at its new place only, if and only if nothing but its lowest slot (or the new place) held it before |
| Schedule.UniqueMove | internal/pkg/timewheel/tw.go:43-73 | With at most one entry, Remove clears the key and Move leaves it at its new place only |
| Schedule.RemoveLeavesSecondEntry | internal/pkg/timewheel/tw.go:105-120 | A key added one and then two minutes ahead has two entries, and Remove leaves the second |
| Bits.SetEncodes | internal/pkg/timewheel/tw.go:36 | After raising bit m the words encode the old set of lit bits plus m |
| Bits.ClearEncodes | internal/pkg/timewheel/tw.go:99 | After clearing bit m the words encode the old set of lit bits without m |
| TimeWheel.BitmapMeansOccupied | internal/pkg/timewheel/tw.go:87-89 | Bit m is 1 exactly when slot m is occupied, and bits 300..319 are 0 |
| TimeWheel.RaiseAgrees | internal/pkg/timewheel/tw.go:36-37 | Setting a bucket's bit while filling it keeps bitmap and buckets in agreement |
| TimeWheel.ExtinguishAgrees | internal/pkg/timewheel/tw.go:92-99 | Clearing the bit of an emptied bucket keeps the agreement |
| TimeWheel.ShrinkAgrees | internal/pkg/timewheel/tw.go:58-62 | A bucket that stays non-empty needs no change of the bitmap |
| TimeWheel.UnrollAdvance | internal/pkg/timewheel/tw.go:80-99 | Turning the pointer onto a bucket and emptying it pops the front of the timetable |
| TimeWheel.BitmappedTimeWheel.constructor | internal/pkg/timewheel/tw.go:14-24 | A new wheel agrees with its bitmap and schedules nothing |
| TimeWheel.BitmappedTimeWheel.Add | internal/pkg/timewheel/tw.go:27-40 | Adds one entry to the timetable, returns its slot, keeps bitmap agreement |
| TimeWheel.BitmappedTimeWheel.FindLowest | internal/pkg/timewheel/tw.go:48-56 | The loop finds the lowest slot that holds the key, or -1 |
| TimeWheel.BitmappedTimeWheel.TakeLowest | internal/pkg/timewheel/tw.go:47-62 | Removes that one entry and clears the bit only if the bucket is empty |
| TimeWheel.BitmappedTimeWheel.Move | internal/pkg/timewheel/tw.go:43-73 | Removes the lowest entry, adds the new one, returns its slot |
| TimeWheel.BitmappedTimeWheel.Tick | internal/pkg/timewheel/tw.go:76-102 | Returns exactly the keys with one tick left, each once, and advances the timetable; the early exit on a 0 bit returns what the scan would |
| TimeWheel.BitmappedTimeWheel.Drain | internal/pkg/timewheel/tw.go:92-96 | In any order, the bucket's keys are listed once each and the bucket is emptied |
| TimeWheel.BitmappedTimeWheel.Remove | internal/pkg/timewheel/tw.go:105-120 | Removes the lowest entry of the key, if any |
| Recency.LookupMeansHasKey | internal/pkg/trie/lru_cache.go:71-74 | A lookup succeeds exactly for the keys in the list |
| Recency.StepWellFormed | internal/pkg/trie/lru_cache.go:34-148 | Every operation keeps keys distinct and the size within capacity |
| Recency.LookupStep | internal/pkg/trie/lru_cache.go:34-148 | What every key maps to after each operation; an inserting Set on a full cache drops exactly the evicted key |
| Recency.LookupWithout | internal/pkg/trie/lru_cache.go:82-90 | Removing a key makes it unfindable and changes no other lookup |
| Recency.LookupFront | internal/pkg/trie/lru_cache.go:143-145 | Dropping the tail loses the tail's key only |
| Recency.RunKeepsNewestFirst | internal/pkg/trie/lru_cache.go:39-60 | Over every trace with a non-decreasing clock, LastAccess is non-increasing from head to tail |
| Recency.StepDates | internal/pkg/trie/lru_cache.go:39-75 | One operation: the entry of the accessed key carries its time, every other entry was there before |
| Recency.RunDates | internal/pkg/trie/lru_cache.go:39-75 | Over every trace, each entry carries the time of the last Set or Get of its key, and is unchanged if there was none |
| Recency.EvictsLeastRecent | internal/pkg/trie/lru_cache.go:47-52 | So an inserting Set on a full cache pushes out an entry whose access no other entry's precedes |
| Recency.CutBehindFirst | internal/pkg/trie/lru_cache.go:82-90 | Removing a key cuts its entry out and leaves the others in their order |
| Recency.StepKeepsInclusion | internal/pkg/trie/lru_cache.go:34-90 | One operation on caches of capacity m <= n keeps the smaller a subsequence of the larger, never behind by more than n - m |
| Recency.RunKeepsInclusion | internal/pkg/trie/lru_cache.go:34-148 | LRU inclusion for every trace of Set, Get, Remove and RemoveTail |
| LruCache.ReactiveLruCache.constructor | internal/pkg/trie/lru_cache.go:26-31 | A new cache is well formed and empty |
| LruCache.ReactiveLruCache.ContentsWellFormed | internal/pkg/trie/lru_cache.go:18-24 | A well-formed cache lists distinct keys, at most capacity many |
| LruCache.ReactiveLruCache.AddToHead | internal/pkg/trie/lru_cache.go:93-103 | Threads a node in front of the list; Prev and Next stay mutual inverses |
| LruCache.ReactiveLruCache.RemoveNode | internal/pkg/trie/lru_cache.go:105-116 | Cuts one node out at any position, head and tail included; the rest stays threaded |
| LruCache.ReactiveLruCache.MoveToHead | internal/pkg/trie/lru_cache.go:118-121 | Moves one node to the front and keeps the others in order |
| LruCache.ReactiveLruCache.Locate | internal/pkg/trie/lru_cache.go:71-74 | The map finds a key exactly when the list holds it, at the node of its entry |
| LruCache.ReactiveLruCache.Set | internal/pkg/trie/lru_cache.go:34-64 | Overwrites and moves to the front, or inserts, evicting and returning exactly the last key of a full cache |
| LruCache.ReactiveLruCache.Renew | internal/pkg/trie/lru_cache.go:39-44 | The branch for a known key: new value, new access time, front of the list, no eviction |
| LruCache.ReactiveLruCache.MakeRoom | internal/pkg/trie/lru_cache.go:47-52 | Drops and returns the last key exactly when the cache is full |
| LruCache.ReactiveLruCache.Insert | internal/pkg/trie/lru_cache.go:55-61 | Puts the new entry in front |
| LruCache.ReactiveLruCache.Get | internal/pkg/trie/lru_cache.go:67-79 | Returns the value of the key, if present, and makes it the most recent |
| LruCache.ReactiveLruCache.Remove | internal/pkg/trie/lru_cache.go:82-90 | Takes the key's entry out of list and map, if present |
| LruCache.ReactiveLruCache.PeekTail | internal/pkg/trie/lru_cache.go:124-132 | Returns key and value of the last entry, or nothing, and changes nothing |
| LruCache.ReactiveLruCache.RemoveTail | internal/pkg/trie/lru_cache.go:135-148 | Removes the last entry and returns its key, or nothing when empty |
| RoomMachine.FoundAfter | services/signaling-gateway/internal/app/moderation_business.go:36-432 | For every event, what becomes of each room: created, changed by an event that names it, evicted, removed or untouched |
| RoomMachine.ChangeInPlace | services/signaling-gateway/internal/app/moderation_business.go:352-354 | Changing the room that was just looked up changes that room and no other |
| RoomMachine.StepWellFormed | services/signaling-gateway/internal/app/service.go:60-66 | Every event keeps the cache duplicate-free and within capacity |
| RoomHistory.RoomIsBorn | services/signaling-gateway/internal/app/moderation_business.go:63-75 | A room comes into the cache by a first connection or by CreateRoom only: empty, unmuted, unpaused, with 100 seats and thirty minutes, or with the limit asked for; CreateRoom starts a cached room afresh too |
| RoomHistory.PeersAreWhoJoined | services/signaling-gateway/internal/app/moderation_business.go:118-132 | Told by the events alone: so long as a room stays cached, a peer is in it if and only if it has joined and not left since, or was there and never left |
| RoomHistory.LimitIsLastSet | services/signaling-gateway/internal/app/moderation_business.go:185-193 | Told by the events alone: the limit is the last one from 1 to 100 that a moderator's join carried, or CreateRoom's, or the limit at the start |
| RoomHistory.MutesCountPresses | services/signaling-gateway/internal/app/moderation_business.go:358 | A mute flag has been flipped as often as its command was given, so it depends on whether that number is odd |
| RoomHistory.BeganIsKept | services/signaling-gateway/internal/app/moderation_business.go:358-432 | CreatedAt is when the room was last created or paused, told by the events alone |
| RoomHistory.LookUpRefreshes | internal/pkg/trie/lru_cache.go:67-79 | Which events look a room up; each makes it the most recent one as of now and keeps the others in their order |
| RoomHistory.OthersKeepOrder | services/signaling-gateway/internal/app/janitor_business.go:62-63 | Every other event leaves the order of the cache alone, but for the room it removes |
| RoomTimers.OtherRoomsKeepTheirs | internal/pkg/timewheel/tw.go:27-120 | No event but a rotation changes the wheel entries of another room |
| RoomTimers.CreationTimer | services/signaling-gateway/internal/app/moderation_business.go:75 | A first connection, and every CreateRoom, adds exactly an entry thirty minutes ahead |
| RoomTimers.JoinTimer | services/signaling-gateway/internal/app/moderation_business.go:195-204 | A moderator's number of minutes from 1 to 300 puts a cached room exactly that far ahead; any other join leaves the wheel alone |
| RoomTimers.CommandTimer | services/signaling-gateway/internal/app/moderation_business.go:361-380 | Pausing puts a room five hours ahead; ending the pause, as many minutes as are left to the compensated deadline; the mutes do nothing |
| RoomTimers.ResumeTimer | services/signaling-gateway/internal/app/moderation_business.go:413-424 | RESUME_CONFERENCE puts a paused room as many minutes ahead as are left to the compensated deadline, and leaves others alone |
| RoomTimers.ExtensionRule | services/signaling-gateway/internal/app/room_business.go:60-63 | An extension is refused if and only if the room would have lived for five hours by its end; with a clock behind the room's beginning, what changes is stated too |
| RoomTimers.ExtendTimer | services/signaling-gateway/internal/app/room_business.go:54-66 | An extension that is not refused puts the room exactly that far ahead; a refused one does nothing |
| RoomTimers.ExamineTimer | services/signaling-gateway/internal/app/janitor_business.go:48-68 | The janitor starts closing a room that is empty or expired, puts any other one minute ahead, and skips ids without a room |
| RoomTimers.JudgedByStartOfRound | services/signaling-gateway/internal/app/janitor_business.go:34-54 | However a round is interleaved with sessions, every room of it is judged by the clock reading from its start |
| RoomTimers.ForceCloseErases | services/signaling-gateway/internal/app/janitor_business.go:88-92 | Closing by force erases the room, its connections and its one wheel entry |
| RoomTimers.NoTimer | services/signaling-gateway/internal/app/moderation_business.go:36-132 | Lookups, leaving, reconnecting and the end of a closing leave the wheel alone |
| RoomWatch.StaysOnWheel | services/signaling-gateway/internal/app/janitor_business.go:81-93 | An id leaves the wheel altogether only by a tick or by its own forced closing |
| RoomWatch.RotationMoves | services/signaling-gateway/internal/app/janitor_business.go:41 | A tick hands exactly the front ids to the janitor and moves the others up |
| RoomWatch.StepWatches | services/signaling-gateway/internal/app/janitor_business.go:41-71 | Every event keeps: a cached room is on the wheel, in the janitor's list, or being closed by it |
| RoomWatch.NoImmortalRoom | services/signaling-gateway/internal/app/janitor_business.go:41-93 | The same for every room after every interleaved run from a new shard, LRU eviction and the gap between Tick and lock included |
| RoomWatch.PendingIsTakenUp | services/signaling-gateway/internal/app/janitor_business.go:46-48 | An id in the janitor's list is examined before the next rotation |
| RoomWatch.EntrySurvives | services/signaling-gateway/internal/app/moderation_business.go:36-110 | A wheel entry outlives every event that does not reschedule its room |
| RoomWatch.ScheduledIsTakenUp | services/signaling-gateway/internal/app/janitor_business.go:41-48 | An entry with n ticks left is examined in the round of the n-th tick |
| RoomWatch.ExaminedWithin300 | services/signaling-gateway/internal/app/janitor_business.go:41-71 | A cached room that is not rescheduled meanwhile is examined within 300 ticks |
| RoomExamined.OthersDrained | services/signaling-gateway/internal/app/janitor_business.go:46-70 | The janitor can always work off the other ids that it holds, without examining this room |
| RoomExamined.EntriesMerged | services/signaling-gateway/internal/app/moderation_business.go:200-204 | By calibrations alone, all wheel entries of a room can be brought down to one |
| RoomExamined.TicksAvoided | services/signaling-gateway/internal/app/moderation_business.go:195-204 | From every state in which the janitor does not hold the id of a cached room, there is a run of any number of ticks in which it never examines that room |
| RoomExamined.ExaminedIffPending | services/signaling-gateway/internal/app/janitor_business.go:41-48 | For every number of ticks: that a cached room which is not being closed is examined within them is certain if and only if the janitor holds its id already |
| RoomExamined.NeverExamined | services/signaling-gateway/internal/app/moderation_business.go:195-204 | For any number of ticks there is a legal run of a new shard in which a cached room is never examined |
| RoomCases.EvictionLeavesTraces | internal/pkg/trie/lru_cache.go:46-52 | Evicting a room from the cache leaves all its wheel entries and connections as they are |
| RoomCases.EvictionHappens | services/signaling-gateway/internal/app/moderation_business.go:74-75 | With capacity one, a second room evicts the first, which keeps its wheel entry and its connection |
| RoomDeadline.DrainRoom | services/signaling-gateway/internal/app/janitor_business.go:46-70 | A whole janitor round, seen from one room: closed if reported and expired, put one tick ahead if reported and not expired, else untouched |
| RoomDeadline.CascadeRoom | services/signaling-gateway/internal/app/janitor_business.go:32-72 | A whole tick, seen from one room |
| RoomDeadline.RemainingInTime | services/signaling-gateway/internal/app/moderation_business.go:374-378 | The remaining minutes are the whole minutes from now to the deadline, or one if there are none: never past the deadline, and less than a minute short of it |
| RoomDeadline.AddedInTime | services/signaling-gateway/internal/app/moderation_business.go:203-204 | A slot that many minutes ahead is examined no later than the first tick at or after the deadline, even when the count wraps at 300 |
| RoomDeadline.LastAddInTime | services/signaling-gateway/internal/app/moderation_business.go:195-208 | Whenever a session puts a running room on the wheel, it is in time for the room's deadline |
| RoomDeadline.SessionKeepsOnTime | services/signaling-gateway/internal/app/moderation_business.go:36-432 | No session event makes a running room late |
| RoomDeadline.TickKeepsOnTime | services/signaling-gateway/internal/app/janitor_business.go:50-68 | A janitor round keeps running rooms on time: re-added for one minute, they are looked at again at the next tick |
| RoomDeadline.PlayKeepsOnTime | services/signaling-gateway/internal/app/janitor_business.go:12-28 | So does every run of sessions and minute ticks |
| RoomDeadline.ClosesOnTime | services/signaling-gateway/internal/app/janitor_business.go:32-72 | After every such run, the next tick removes a running room whose deadline has come, and leaves untouched a room with a joined peer whose deadline has not |
| RoomWindow.RevivalIsExact | services/signaling-gateway/internal/app/moderation_business.go:172-432 | An expired room becomes live exactly through a join with a deadline to come, or through the end of a pause that leaves it with peers and a deadline to come |
| RoomWindow.StepClosable | services/signaling-gateway/internal/app/janitor_business.go:57-59 | In one step of any kind, eviction and re-creation included, a closable room stays closable if and only if the event does not revive it |
| RoomWindow.WindowIsExact | services/signaling-gateway/internal/app/janitor_business.go:57-59 | However many events the window sees, the room is closable after each of them if and only if none of them revives it |
| RoomWindow.WindowOpens | services/signaling-gateway/internal/app/janitor_business.go:54-57 | The janitor starts closing only a room that is expired, then and at every later time |
| RoomWindow.WindowStaysOpen | services/signaling-gateway/internal/app/janitor_business.go:57-59 | Until the janitor comes back, the room it is closing is not forgotten |
| RoomWindow.ClosesLiveRoomIffRevived | services/signaling-gateway/internal/app/janitor_business.go:54-63 | The janitor can come back to remove a live room in some course of the window if and only if some event of the window revives it |
| RoomWindow.GuestLosesRoom | services/signaling-gateway/internal/app/janitor_business.go:57-63 | A legal run from a new shard in which a guest joins the deserted room during the broadcast, and the room, live and with its minute to go, is closed |
| RoomWindow.ConnectedTooLate | services/signaling-gateway/internal/app/janitor_business.go:57-63 | Whoever connects during the broadcast loses the connection when the janitor comes back |
| RoomWindow.ReportedRoomIsClosed | services/signaling-gateway/internal/app/janitor_business.go:46-71 | In a round interleaved with any events, a reported room that is expired and that no event revives is gone before the round is over, and for good unless it is created anew |
| RoomPause.StepReadsMeter | services/signaling-gateway/internal/app/moderation_business.go:358-432 | Each event changes deadline, pause flag and pause start as an independent stopwatch says, and a pause is counted once whichever command ends it |
| RoomPause.DeadlineTracksPauses | services/signaling-gateway/internal/app/moderation_business.go:370-378 | Over every run until the next calibration, the deadline has moved by exactly the total length of the completed pauses |
| RoomPause.CalibrationThenPauses | services/signaling-gateway/internal/app/moderation_business.go:195-208 | From a calibration on, UpdatedAt = calibration time + duration + completed pauses |
| RoomPause.CreationThenPauses | services/signaling-gateway/internal/app/moderation_business.go:63-75 | Until its first calibration a lazily created room has its creation time + thirty minutes + completed pauses |
| RoomPause.RunFlagsAgree | services/signaling-gateway/internal/app/moderation_business.go:358-362 | From any state in which they agree, IsPaused equals RoomStates[0] for every cached room to the end of every run |
| RoomPause.FlagsAgreeInEveryRun | services/signaling-gateway/internal/app/moderation_business.go:358-362 | IsPaused equals RoomStates[0] for every cached room in every run of a new shard |
| RoomPause.LongerPause | services/signaling-gateway/internal/app/moderation_business.go:371-372 | Over every run, two stopwatches that differ in when the first pause began differ by exactly that much once it has ended |
| RoomPause.PausedCalibrationOvercounts | services/signaling-gateway/internal/app/moderation_business.go:195-208 | After calibrating a paused room, at every moment once that pause has ended the deadline exceeds the exact one by the part of the pause before the calibration, and is exact if and only if the pause began then |
| RoomPauseCases.PausedCalibrationHappens | services/signaling-gateway/internal/app/moderation_business.go:195-208 | A run of a new shard: paused at 0, calibrated for ten minutes at minute 1, resumed at minute 2, the room has its deadline at minute 13 where 12 is exact |
| RoomPause.PauseSchedules | services/signaling-gateway/internal/app/moderation_business.go:364-367 | Pausing a room with a unique entry leaves one entry, 300 ticks away |
| RoomPause.SoleEntryNotReported | services/signaling-gateway/internal/app/janitor_business.go:41-48 | Until a sole entry runs out, its room is neither reported nor examined |
| RoomPause.PausedRoomNotReported | services/signaling-gateway/internal/app/moderation_business.go:364-367 | A room with a unique entry when paused, then left alone, is not reported during the next 299 ticks |
| RoomPause.LeftAloneStaysPaused | services/signaling-gateway/internal/app/moderation_business.go:364-380 | A paused room that is left alone stays paused, with the same deadline, as long as it is cached |
| RoomPause.PausedRoomAt300thTick | services/signaling-gateway/internal/app/janitor_business.go:50-68 | The 300th tick after the pause closes the room, still paused, if and only if it is empty or its old deadline has come |
| RoomPauseCases.PausedRoomIsClosed | services/signaling-gateway/internal/app/janitor_business.go:50-63 | A run of a new shard: a room calibrated for ten minutes and paused at once is closed by the 300th tick, still paused and with its moderator in it |
| RoomCapacity.AdmissionRule | services/signaling-gateway/internal/app/moderation_business.go:39-109 | A full room turns everybody away; a guest is admitted exactly when the room exists and another peer in it is a moderator |
| RoomCapacity.RowAfter | services/signaling-gateway/internal/app/moderation_business.go:43-119 | What each event does to a room's connections, the room's removal included |
| RoomCapacity.StepGrowth | services/signaling-gateway/internal/app/moderation_business.go:43-58 | A room gains a connection exactly when a new peer connects below the limit in force, waiting guests included, and then one; reconnects add none |
| RoomCapacity.RunWithinPeak | services/signaling-gateway/internal/app/moderation_business.go:36-193 | Over every run the connections stay within the largest limit in force so far |
| RoomCapacity.PeakAtMost100 | services/signaling-gateway/internal/app/moderation_business.go:187-193 | Limits set by join stay at most 100 |
| RoomCapacity.ConnectionsWithinLimits | services/signaling-gateway/internal/app/moderation_business.go:36-193 | From a room's lazy creation until it leaves the cache, its connections never exceed the largest limit so far, hence never 100 |
| RoomSteps.StepByStep | services/signaling-gateway/internal/app/moderation_business.go:36-432 | Each handler's sequence of cache, table and wheel operations is exactly the machine's step for its event |
| RoomShard.VideoRoom.Apply | services/signaling-gateway/internal/app/moderation_business.go:176-204 | The field updates of a handler change the room object as the machine changes the room value |
| RoomShard.ImageLookup | services/signaling-gateway/internal/app/moderation_business.go:39-41 | Looking up the room object and looking up its contents agree |
| RoomShard.ImageSet | services/signaling-gateway/internal/app/moderation_business.go:74 | Storing a room object stores its contents |
| RoomShard.ImageGet | services/signaling-gateway/internal/app/moderation_business.go:39 | Refreshing a room object refreshes its contents' entry |
| RoomShard.ImagePoke | services/signaling-gateway/internal/app/moderation_business.go:353-378 | Writing through the pointer that Get returned changes exactly the looked-up room in the cache |
| RoomShard.ImageUnaffected | services/signaling-gateway/internal/app/moderation_business.go:352-358 | Writing through a pointer to a room that is no longer cached changes nothing in the cache |
| RoomShard.RoomShard.constructor | services/signaling-gateway/internal/app/service.go:60-66 | A new shard is the machine's initial state |
| RoomShard.RoomShard.Connect | services/signaling-gateway/internal/app/moderation_business.go:36-110 | Admission is the machine's Connect step, with its outcome |
| RoomShard.RoomShard.AnyModerator | services/signaling-gateway/internal/app/moderation_business.go:85-91 | The loop finds a moderator if and only if there is one |
| RoomShard.RoomShard.EndWaiting | services/signaling-gateway/internal/app/moderation_business.go:102-104 | A waiting guest that hangs up is the machine's WaiterGone step |
| RoomShard.RoomShard.Leave | services/signaling-gateway/internal/app/moderation_business.go:118-125 | The deferred clean-up is the machine's Leave step |
| RoomShard.RoomShard.Join | services/signaling-gateway/internal/app/moderation_business.go:172-210 | A join frame is the machine's Join step, calibration included |
| RoomShard.RoomShard.Command | services/signaling-gateway/internal/app/moderation_business.go:348-384 | A registry command is the machine's Command step, also on a room that left the cache |
| RoomShard.RoomShard.FlipState | services/signaling-gateway/internal/app/moderation_business.go:352-372 | The state flips in the cached room, or in the handler's stale one when there is none |
| RoomShard.RoomShard.Resume | services/signaling-gateway/internal/app/moderation_business.go:408-432 | RESUME_CONFERENCE is the machine's Resume step |
| RoomShard.RoomShard.LookUp | services/signaling-gateway/internal/app/service.go:76-80 | Looking a room up finds the machine's room, moves it to the front and changes nothing else |
| RoomShard.RoomShard.CreateRoom | services/signaling-gateway/internal/app/room_business.go:14-45 | Stores a fresh room over an old one, keeps its connections and adds a wheel entry |
| RoomShard.RoomShard.ExtendRoomDuration | services/signaling-gateway/internal/app/room_business.go:47-70 | Refuses missing rooms and extensions to 300 minutes or more, otherwise moves the lowest wheel entry only |
| RoomShard.RoomShard.ForceCloseRoom | services/signaling-gateway/internal/app/janitor_business.go:81-93 | Removes room, connections and one wheel entry |
| RoomShard.RoomShard.Rotate | services/signaling-gateway/internal/app/janitor_business.go:41 | The tick before the lock is the machine's Rotate step, with the ids in some order |
| RoomShard.RoomShard.Examine | services/signaling-gateway/internal/app/janitor_business.go:47-68 | Processing one id is the machine's Examine step: start closing, re-add for a minute, or skip |
| RoomShard.RoomShard.FinishClose | services/signaling-gateway/internal/app/janitor_business.go:59-63 | After the broadcast, room and connections go |
| RoomShard.RoomShard.ProcessNext | services/signaling-gateway/internal/app/janitor_business.go:47-69 | Examining and closing one id leaves the round's outcome the same |
| RoomShard.RoomShard.TickTimeWheelCascade | services/signaling-gateway/internal/app/janitor_business.go:32-72 | The loop over expired ids is the machine's whole round |
| TokenBucket.PlanIsSound | internal/pkg/ratelimit/limiter.go:40-44 | Whatever wraps around in 64 bits, the planned level is within capacity and at most tokens + refill |
| TokenBucket.LevelInRange | internal/pkg/ratelimit/limiter.go:34-44 | Where nothing overflows and the clock has not gone back, the level is min(capacity, tokens + rate * elapsed / 1e9) |
| TokenBucket.StepAccounts | internal/pkg/ratelimit/limiter.go:27-60 | Each atomic step of any goroutine keeps 0 <= tokens <= capacity and the token balance |
| TokenBucket.RunAccounts | internal/pkg/ratelimit/limiter.go:27-60 | For all goroutines and interleavings: grants + tokens + claimed refill + spilled refill = capacity + credited refill |
| TokenBucket.RefillBacked | internal/pkg/ratelimit/limiter.go:34-40 | A refill never exceeds rate times elapsed time, wrap-around included |
| TokenBucket.RunBacked | internal/pkg/ratelimit/limiter.go:52 | Over every run, credited refill is backed by the time that successful swaps took to have passed |
| TokenBucket.GrantsWithinForwardTime | internal/pkg/ratelimit/limiter.go:27-60 | In every run, grants <= capacity + rate * (time the code took to have passed) / 1e9 |
| TokenBucket.ForwardTelescopes | internal/pkg/ratelimit/limiter.go:34-52 | If no swap puts the time back, that time is at most lastRefillTime minus the start |
| TokenBucket.GrantsWithinRate | internal/pkg/ratelimit/limiter.go:27-60 | If committed times never go back, grants <= capacity + rate * (lastRefillTime - start) / 1e9 |
| TokenBucket.GrantsCounted | internal/pkg/ratelimit/limiter.go:54-55 | The number of grants stands still exactly in the runs without a successful token swap |
| TokenBucket.CommitsBounded | internal/pkg/ratelimit/limiter.go:52 | In a run without grants, n goroutines commit their times at most 2n times in all |
| TokenBucket.RetriesBounded | internal/pkg/ratelimit/limiter.go:52-58 | In a run without grants, a goroutine starts its loop again at most once more than times are committed |
| TokenBucket.LockFree | internal/pkg/ratelimit/limiter.go:27-60 | Lock-freedom: while no request is granted, no goroutine of n starts its loop again more than 2n + 1 times, in any interleaving from any state |
| RateBound.FinishAllowed | internal/pkg/ratelimit/limiter.go:30-56 | A goroutine that runs on undisturbed after reading the clock commits both words and is granted its token |
| RateBound.AloneKeepsTime | internal/pkg/ratelimit/limiter.go:29-52 | Under a clock that never goes back, a single goroutine never puts the committed time back |
| RateBound.TwoGoroutinesPutTimeBack | internal/pkg/ratelimit/limiter.go:29-52 | As soon as there are two goroutines and a token, there is a run under such a clock that puts the committed time back |
| RateBound.TimeKeptIff | internal/pkg/ratelimit/limiter.go:29-52 | Under such a clock the committed time never goes back in any run, if and only if there is at most one goroutine or no token |
| RateBound.TwoGoroutinesBreakRate | internal/pkg/ratelimit/limiter.go:29-54 | For every rate of up to a token a nanosecond and every capacity from two on, two goroutines can be granted capacity + 2 requests where the rate allows capacity + 1 |
| RateBound.ThreeGoroutinesBreakRate | internal/pkg/ratelimit/limiter.go:29-54 | With a single token, three goroutines can break the rate |
| RateBound.RunPaired | internal/pkg/ratelimit/limiter.go:27-60 | With a single token, two goroutines cannot: every grant after the first is paid for by time, in every interleaving |
| RateBound.RateKeptIff | internal/pkg/ratelimit/limiter.go:27-60 | Under a clock that never goes back, n goroutines keep the rate in every run if and only if n <= 1, or there is no token, or no refill, or one token for two goroutines |
| TokenBucket.TokenBucketLimiter.constructor | internal/pkg/ratelimit/limiter.go:17-24 | A new limiter is full and starts its clock now |
| TokenBucket.TokenBucketLimiter.Advance | internal/pkg/ratelimit/limiter.go:28-58 | One atomic step of one goroutine on the shared words is one step of the interleaving model |
| TokenBucket.TokenBucketLimiter.AllowUndisturbed | internal/pkg/ratelimit/limiter.go:27-60 | Without interference the retry loop ends in one round; where nothing overflows the call is allowed if and only if min(capacity, tokens + rate * elapsed / 1e9) >= 1, and then leaves one less |
| Allowance.RunSpends | internal/pkg/ratelimit/limiter.go:27-60 | At one instant and undisturbed, from anywhere in a call: each completed call has taken a token until the allowance is used up, and none after |
| Allowance.BurstIsExact | internal/pkg/ratelimit/limiter.go:27-60 | A goroutine alone at one instant is granted exactly its first min(capacity, tokens + rate * elapsed / 1e9) calls, and every six steps complete a call |
| Allowance.RefilledBucket | internal/pkg/ratelimit/limiter.go:34-55 | An emptied bucket left alone for the time of k tokens grants exactly the next k calls |
| Allowance.CallOutcome | internal/pkg/ratelimit/limiter.go:46-58 | In every interleaving: a call has ended denied if and only if the goroutine's last step found less than a token in the refilled bucket, and granted if and only if it swapped the tokens; a lost swap ends no call |
| Numerals.DecimalDenotes | services/cloud-routing-proxy/internal/app/balancer.go:40 | A printed number is a minus sign if negative, and digits without a leading zero that read back to it |
| Numerals.NumeralUnique | services/cloud-routing-proxy/internal/app/balancer.go:40 | Only one numeral reads as a given number |
| HashRing.PointsAreVirtual | services/cloud-routing-proxy/internal/app/balancer.go:39-44 | A node's points are exactly the hashes of the node, a #, and a numeral that reads as less than fifty |
| HashRing.KeysDiffer | services/cloud-routing-proxy/internal/app/balancer.go:40 | The keys of a node are pairwise different |
| HashRing.PointsCounted | services/cloud-routing-proxy/internal/app/balancer.go:39-44 | A node has as many points as keys if and only if the hash tells its keys apart |
| HashRing.LastOwnsExactly | services/cloud-routing-proxy/internal/app/balancer.go:39-44 | After its addition a node owns its fifty points and nothing else, and every other point is as it was |
| HashRing.SuccessorUnique | services/cloud-routing-proxy/internal/app/balancer.go:60-67 | The least point at or after a hash, with wrap-around, is unique |
| HashRing.Successor | services/cloud-routing-proxy/internal/app/balancer.go:60-69 | On a non-empty ring every hash has such a point |
| HashRing.MinimalDisruption | services/cloud-routing-proxy/internal/app/balancer.go:35-46 | Adding any node to any non-empty ring changes a route only to the new node, for every hash function and all collisions |
| HashRing.BuildKeys | services/cloud-routing-proxy/internal/app/balancer.go:39-44 | The ring's points are those of the added nodes, and each is owned by an added node whose point it is |
| HashRing.BuildDependsOnSet | services/cloud-routing-proxy/internal/app/balancer.go:18-27 | Without collisions between different nodes, ownership depends only on the set of nodes |
| HashRing.LastOwnsItsPoints | services/cloud-routing-proxy/internal/app/balancer.go:43 | A node added last gets what is hashed to its points |
| HashRing.OrderIrrelevantIffNoCollisions | services/cloud-routing-proxy/internal/app/balancer.go:18-46 | Routing is independent of order and repetition of AddNode if and only if no two nodes share a point |
| HashRing.Sort | services/cloud-routing-proxy/internal/app/balancer.go:45 | The sorted ring holds the same points with the same multiplicity |
| HashRing.ConsistentHashRing.constructor | services/cloud-routing-proxy/internal/app/balancer.go:18-27 | A ring built from a list owns what adding its nodes in order gives |
| HashRing.ConsistentHashRing.AddNode | services/cloud-routing-proxy/internal/app/balancer.go:35-46 | The ring stays sorted and matched to its owners; the node owns exactly the hashes of its fifty keys, and every other point keeps its owner |
| HashRing.ConsistentHashRing.AddPoints | services/cloud-routing-proxy/internal/app/balancer.go:39-44 | The loop claims all fifty points of the node, shared ones included; AddNode says which they are |
| HashRing.ConsistentHashRing.Search | services/cloud-routing-proxy/internal/app/balancer.go:60-62 | Binary search finds the first point at or after the hash |
| HashRing.ConsistentHashRing.PointsOwnedByAddedNodes | services/cloud-routing-proxy/internal/app/balancer.go:69-70 | Every point on the ring is owned by an added node |
| HashRing.ConsistentHashRing.RouteRoom | services/cloud-routing-proxy/internal/app/balancer.go:49-71 | Returns the owner of the successor point of the room's hash; fails exactly on an empty ring |
| KeyboardLayout.TablesDistinct | internal/pkg/trie/t9_tree.go:117-118 | Both key rows have 64 different characters and share none |
| KeyboardLayout.PairsInverse | internal/pkg/trie/t9_tree.go:120-123 | Tables filled in one loop from rows without repetition undo each other |
| KeyboardLayout.BuiltTablesInverse | internal/pkg/trie/t9_tree.go:116-124 | The engine's two tables undo each other |
| KeyboardLayout.RepairSwapsKeys | internal/pkg/trie/t9_tree.go:104-111 | Repair maps each key's character to its partner in the other layout, both ways |
| KeyboardLayout.KeysTypeLetters | internal/pkg/trie/t9_tree.go:117-123 | The keys repaired to the letters from а to я are, in alphabetical order, f,dult;pbqrkvyjghcnea[wxio]sm'.z, and likewise the capitals, and back |
| KeyboardLayout.NormalizeIsInvolution | internal/pkg/trie/t9_tree.go:100-114 | Repairing twice gives back every string |
| T9Prefix.T9PrefixEngine.constructor | internal/pkg/trie/t9_tree.go:20-28 | A new engine is well formed, holds no word and has the two layout tables |
| T9Prefix.T9PrefixEngine.FillTables | internal/pkg/trie/t9_tree.go:120-123 | The loop builds both tables from the two rows |
| T9Prefix.T9PrefixEngine.NormalizeLayout | internal/pkg/trie/t9_tree.go:100-114 | The loop computes the repaired string |
| T9Prefix.T9PrefixEngine.Insert | internal/pkg/trie/t9_tree.go:31-46 | Adds exactly the word, and keeps the trie's shape: one node per beginning of an inserted word |
| T9Prefix.T9PrefixEngine.Walk | internal/pkg/trie/t9_tree.go:36-43 | The loop ends at the word's node, having made the missing ones |
| T9Prefix.T9PrefixEngine.Descend | internal/pkg/trie/t9_tree.go:39-42 | One step down, making the child only when it is missing |
| T9Prefix.T9PrefixEngine.Grow | internal/pkg/trie/t9_tree.go:40 | A fresh leaf becomes a child of one node and changes no other |
| T9Prefix.T9PrefixEngine.MarkWord | internal/pkg/trie/t9_tree.go:44-45 | Marking the node makes the word known and closes the new branch |
| T9Prefix.T9PrefixEngine.BeginningsPresent | internal/pkg/trie/t9_tree.go:73-79 | Every beginning of an inserted word has a node |
| T9Prefix.T9PrefixEngine.NoDescentFails | internal/pkg/trie/t9_tree.go:91-95 | From every node but the root, child links lead character by character to a marked node that carries its word |
| T9Prefix.T9PrefixEngine.WordBelow | internal/pkg/trie/t9_tree.go:91-95 | A node that begins words without being one has a child that begins words |
| T9Prefix.T9PrefixEngine.FindFirstWordTail | internal/pkg/trie/t9_tree.go:85-98 | In any child order, finds an inserted word below the node if and only if there is one; in a trie without dead ends it looks at one node per further character of that word, so it never backtracks |
| T9Prefix.T9PrefixEngine.SearchTree | internal/pkg/trie/t9_tree.go:68-83 | Succeeds exactly when some inserted word begins with the prefix, and returns such a word |
| T9Prefix.T9PrefixEngine.Search | internal/pkg/trie/t9_tree.go:50-66 | Succeeds exactly when the prefix or its repaired form begins an inserted word, preferring the prefix as typed |
| T9Prefix.T9PrefixEngine.SearchBothLayouts | internal/pkg/trie/t9_tree.go:50-66 | For every prefix of an inserted word, Search succeeds on it and on its repaired form |
| Text.Find | services/signaling-gateway/internal/app/limits_business.go:13 | The separator stands at the position found and nowhere before |
| Text.JoinSplit | services/signaling-gateway/internal/app/limits_business.go:13-21 | Joining the pieces of any text restores it |
| Text.SplitJoin | services/signaling-gateway/internal/app/jwt_validator.go:25 | Splitting joined pieces gives them back when none holds the separator |
| Text.SplitLacks | services/signaling-gateway/internal/app/jwt_validator.go:25 | No piece of a split text holds the separator |
| Sdp.UncappedCapped | services/signaling-gateway/internal/app/limits_business.go:15-20 | Dropping the line behind each video line restores the lines |
| Sdp.CappedAt | services/signaling-gateway/internal/app/limits_business.go:14-20 | Where every line goes: behind those before it and one more for each m=video line among these; right behind each of them stands b=AS:100 |
| Sdp.MutateSdpQuality | services/signaling-gateway/internal/app/limits_business.go:12-22 | Identity without lowBandwidth; with it, the CRLF lines are the input's with one cap right after each video line, and dropping the caps restores the input |
| Base64Url.EncodeAlphabet | services/auth-service/internal/app/jwt_business.go:55-61 | The encoding holds no dot and no line break |
| Base64Url.DecodeEncode | services/signaling-gateway/internal/app/jwt_validator.go:48 | Decoding what was encoded gives back every byte string |
| Base64Url.LetterInOrder | services/auth-service/internal/app/jwt_business.go:55 | The alphabet is A to Z, a to z, 0 to 9, - and _, in this order |
| Base64Url.EncodeGroup | services/auth-service/internal/app/jwt_business.go:55 | Three bytes become the four letters of the same 24-bit number, and the rest follows likewise |
| Base64Url.EncodeLast | services/auth-service/internal/app/jwt_business.go:55 | One or two bytes at the end become two or three letters, the missing bytes counting as zeros, without padding |
| Base64Url.DecodeAccepts | services/signaling-gateway/internal/app/jwt_validator.go:48 | Besides line breaks, exactly the texts over the alphabet are decoded whose length is not 1 modulo 4 |
| Base64Url.EncodeDecode | services/signaling-gateway/internal/app/jwt_validator.go:48 | What was decoded encodes to the same letters again, but for spare bits in the last one |
| Base64Url.BreakIgnored | services/signaling-gateway/internal/app/jwt_validator.go:48 | A line break anywhere makes no difference to what is decoded |
| Jwt.CompactFormSplits | services/signaling-gateway/internal/app/jwt_validator.go:25-32 | Three dot-free parts joined by dots split into exactly these parts |
| Jwt.IssuedTokenParts | services/auth-service/internal/app/jwt_business.go:51-64 | For all claims, an issued token has three parts, the recomputed signature equals the issued one, the header decodes to the literal JSON text and the middle part to the payload; FieldsReadBack says what that holds |
| Jwt.PayloadSplits | services/auth-service/internal/app/jwt_business.go:53 | Splitting a payload at the double quotes gives the keys and the fields back in their places |
| Jwt.FieldsReadBack | services/auth-service/internal/app/jwt_business.go:53-64 | The decoded middle part of an issued token holds, behind the keys user_id, email and role, just these claims, and at its end a decimal number that denotes the expiry |
| Jwt.PayloadIsInjective | services/auth-service/internal/app/jwt_business.go:53 | Two different claims never share a payload |
| Jwt.IssuedTokenValidates | services/signaling-gateway/internal/app/jwt_validator.go:23-64 | Only the JSON reader and the expiry check can reject an issued token |
| Jwt.ThreePartsJoin | services/signaling-gateway/internal/app/jwt_validator.go:25-37 | A three-part text is its signing input, a dot and its third part |
| Jwt.SignatureStageIsExact | services/signaling-gateway/internal/app/jwt_validator.go:25-45 | The topology and signature stages let through exactly the texts made of two dot-free parts and their own signature |
| ChatBatch.StepConserves | services/signaling-gateway/internal/app/chat_business.go:103-133 | Each event keeps file, batch and queue equal to the accepted lines in order |
| ChatBatch.RunConserves | services/signaling-gateway/internal/app/chat_business.go:38-133 | In every run, written lines ++ batch ++ queue = the accepted lines in order, failed opens and a full queue included |
| ChatBatch.BatchStaysSmall | services/signaling-gateway/internal/app/chat_business.go:126-130 | While opens succeed, the batch stays below 30 between steps |
| ChatBatch.PushRule | services/signaling-gateway/internal/app/chat_business.go:40-44 | A line is taken in behind those waiting while they are fewer than 50000, and otherwise dropped |
| ChatBatch.ReceiveRule | services/signaling-gateway/internal/app/chat_business.go:126-130 | The oldest waiting line joins the batch; the thirtieth line of a batch has all of it written, if the file opens |
| ChatBatch.TickerRule | services/signaling-gateway/internal/app/chat_business.go:131-132 | A ticker whose open succeeds leaves the batch empty and every received line in the file; otherwise nothing changes |
| ChatBatch.ChatWorker.PushToBatchQueue | services/signaling-gateway/internal/app/chat_business.go:38-45 | A push is the machine's step: accepted unless the queue is full |
| ChatBatch.ChatWorker.FlushBatch | services/signaling-gateway/internal/app/chat_business.go:106-119 | Writes the whole batch in order and empties it, or changes nothing when the open fails |
| ChatBatch.ChatWorker.ReceiveLine | services/signaling-gateway/internal/app/chat_business.go:126-130 | Receiving a line is the machine's step, with the size flush |
| ChatBatch.ChatWorker.TickerFires | services/signaling-gateway/internal/app/chat_business.go:131-132 | The ticker flush is the machine's step |

## Left out

- LruCache.ReactiveLruCache.Set: requires a capacity of at least one, because with less the code dereferences the missing tail of an empty cache (lru_cache.go:48-50).
- TimeWheel.BitmappedTimeWheel.Add: requires a slot number that is not negative; Go's `%` makes a negative one of a negative sum that is no multiple of 300, and the code then fails on the shift or the index.
- TimeWheel.BitmappedTimeWheel.Move: requires a slot number that is not negative, for the same reason; in the code the old entry is gone by then.
- RoomShard.RoomShard.ExtendRoomDuration: requires a slot number that is not negative where the extension is not refused, as the wheel does; the machine has a step for the other counts too, which no method takes.
- RoomWatch.ExaminedWithin300: speaks of rooms that are not rescheduled meanwhile; RoomExamined.ExaminedIffPending says what holds without that.
- RoomDeadline.ClosesOnTime: leaves out rooms touched by CreateRoom, which sets no deadline, or ExtendRoomDuration, which moves the slot but not the deadline, and takes each janitor round as one step; RoomWindow says what an interleaved round does.
- RateBound.RateKeptIff: for rates of up to a token a nanosecond, capacities and starting times of up to 2^62, where no sum overflows.
- RateBound.TimeKeptIff: for starting times that leave a nanosecond, and where capacity plus the refill of a nanosecond does not overflow.
- TokenBucket.TokenBucketLimiter.AllowUndisturbed: the retry loop of a goroutine that is disturbed need not end, so only the undisturbed call is a terminating method; Advance is the interleaved one, and LockFree bounds its retries.
- Allowance.BurstIsExact: where no sum or product leaves 64 bits and the clock has not gone back; beyond that PlanIsSound bounds the level.
- Jwt.FieldsReadBack: for fields without a double quote, as the issuer pastes the fields into the JSON text without escaping them.
- Jwt.PayloadIsInjective: for fields without a double quote, for the same reason.
- T9Prefix.T9PrefixEngine.Insert: words are sequences of code points, so what Go does to invalid UTF-8 is not modelled.
- ChatBatch.ChatWorker.FlushBatch: writes to an opened file are taken to succeed, as the code ignores their errors; the flush at shutdown is not modelled.
- Claims that wheel keys or connections belong to cached rooms: false of the code, as RoomCases.EvictionHappens shows.
- The choice of the shard by a hash of the room id, and the 32 shards side by side: the theorems are about any one shard.
- WebSocket frames and broadcasts, JSON, logging and garbage collection: incoming frames are events, outgoing ones have no effect on the state.
- Chat history, current speaker, recordings, and the mute, heartbeat and last-message fields of a peer: no modelled property depends on them.
- Cryptography, password checks and the mock profiles: the keyed hash is an arbitrary function.
- Generated code, HTTP and gRPC handlers, the reverse proxy, configuration, the browser client and the storage service: plumbing and input/output.
- The exponential backoff: floating point and random jitter.
