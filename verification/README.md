# Attendance: a verified model

A face-recognition attendance system: workers share one file of face encodings, a camera posts
frames, a register keeps at most one row per person per day, and a small SQLite schema has
grown over the years. This project models the parts of it that keep state, and proves what they
keep. `dafny verify dfyconfig.toml` checks everything.

| file | models |
|---|---|
| `EncodingStore.dfy` | the encoding file as two parallel arrays, the dictionary read from it, and the search for the closest face |
| `EncodingCache.dfy` | one process's cache of the file: when may a stamp be trusted? |
| `EncodingProtocol.dfy` | any number of workers, readers and writers, interleaved statement by statement, each free to die at any step |
| `Enrolment.dfy` | one enrolment or removal on its own, with the process dying after any number of effects on disk |
| `RateLimiter.dfy`, `RateLimiterRuns.dfy`, `RateLimiterCap.dfy` | the bounded sliding-window limiter as code, whole runs of it against an unpruned log, and who goes when it is full |
| `Register.dfy`, `RegisterRuns.dfy`, `RegisterTimes.dfy` | the register one call at a time, every interleaving of its SQL statements, and when a departure can come before its arrival |
| `Frames.dfy` | one camera frame: the gates, the faces in turn, the summary |
| `Search.dfy`, `Paging.dfy` | `LIKE` with its escaping, the archive query, the pages |
| `Calibration.dfy`, `Thresholds.dfy`, `Stretches.dfy` | pricing liveness thresholds: how much was measured, which thresholds are worth considering, asking for several frames in a row |
| `Text.dfy`, `Clock.dfy`, `Duration.dfy` | timestamps: printing, reading, string order, durations |
| `Migration.dfy`, `Upgrades.dfy` | bringing any historical database up to date, and dying half way |

Python objects that change in place are classes here (`FaceCache`, `Site`, `Limiter`,
`Attendance`, `Connection`); loops are loops. Each method is tied to a function of its inputs and
the old state, and the theorems are about those functions over every input, run or interleaving.

## What the system is assumed to stand on

- A SQL statement is atomic, `BEGIN IMMEDIATE` is a mutex, and the death of its holder releases
  it. A busy timeout that runs out is a failed acquire with no effect.
- `os.replace` is atomic and the encoding file, once there, is only ever replaced. That a stamp
  tells versions apart is a hypothesis of the read theorems, and is proved to be necessary.
- Time is a real number that never goes back for the limiter; scores, distances and correlations
  are real numbers, so floating-point rounding is not modelled.
- Face detection, face encoding, image decoding and the liveness model are inputs: a face comes
  with a score or none, and an encoding or none; distance is any function.
- Python's `sqlite3` opens a transaction before an `UPDATE` and not before an `ALTER`, so a schema
  change outside a transaction is on disk at once.

## Where the code does not do what is said of it

- `candidates` (scripts/calibrate_liveness.py:319-331) is described as the entire space of
  distinct decisions. Scores are stored unrounded and candidates are rounded to hundredths, so it
  is that exactly when some rounding is at or below all the scores and any two different scores
  have one between them (`CandidatesAreCompleteExactlyWhenSeparated`); `CrowdedScoresHideADecision`
  is a pair of scores for which it is not.
- `recommend` may say no though a usable threshold exists (`AGapCanHideAUsableThreshold`): exactly
  when the limit falls between the share of real frames no higher than some spoof and the share no
  rounding reaches (`NothingIsRecommendedExactlyWhen`). For scores to the hundredth all is as
  described (`OnTheGridTheChoiceIsBest`).
- `safest_threshold` can always be found, even with no spoof samples at all, so the branches that
  handle its absence (scripts/calibrate_liveness.py:464-466, 528-530) are out of reach
  (`SafestIsAHairAboveTheSpoofs`, `TheTableOnlyFalls`).
- `check_out` asks its last question in a separate statement, so "already_out" may be said of
  somebody who is still in (`AlreadyOutCanBeWrong`). It is right exactly when the person's row was
  there at the update or another check-out closed it before the question
  (`AlreadyOutIsRightExactlyWhen`), so always for somebody who had arrived before the request began.
- A departure can be recorded before the arrival (`OverlapCanInvertTimes`): exactly when the
  check-out read the clock before the check-in did and the clock moved in between, which puts the
  check-in's reading and writing between those of the check-out (`InvertedExactlyWhen`). Requests
  about one person that do not overlap each other never do it, whatever others overlap
  (`NoOverlapNoInversion`).
- The migration approves existing accounts in a statement of its own. A process that dies between
  adding the column and committing leaves every old account unapproved, and the next run does not
  put it right (`StrandedAccounts`); `DeathIsHarmlessExactlyWhen` says when that can happen.
- A departure time that already carries an offset is dropped by the migration when the arrival
  beside it does not (`DeparturesAreLostExactlyWhen`, `MixedRowLosesItsDeparture`).
- Stored times sort as text, which is the order of the wall clocks (`TextSortsByWallClock`). It is
  the order of the instants exactly when the clock faces are not apart by less than the offsets are
  and in the same direction (`StringOrderIsTimeOrderExactlyWhen`), as they are when the clocks go
  back (`WhenTheClocksGoBack`).
- `duration` raises when one stored time has an offset and the other has none (`NaiveTimes`).

Two remarks that need no proof: the archive route works out its page with the same arithmetic as
`Page` (`RouteAgreesWithPage`), and a stamp begins with its own local date
(`StampStartsWithItsDate`).

## Model

| member | source | states |
|---|---|---|
| `EncodingStore.LoadKnownEncodings` | attendance/recognition.py:77-99 | the dictionary read back files each vector under its name in file order; no file is an empty dictionary |
| `EncodingStore.SaveKnownEncodings` | attendance/recognition.py:102-134 | the two parallel arrays hold one entry per encoding, people and encodings in dictionary order |
| `EncodingStore.AddLookup` | attendance/recognition.py:94-97 | adding vectors to one name extends exactly that name's list, and keeps names different and lists nonempty |
| `EncodingStore.WithoutLookup` | attendance/enrolment.py:218-220 | deleting a name removes that person and nobody else |
| `EncodingStore.AddKeepsOrder` | attendance/enrolment.py:333-335 | a name that gets more vectors keeps its place, a new one comes last |
| `EncodingStore.WithoutKeepsOrder` | attendance/enrolment.py:217-221 | deleting a name closes the gap and moves nobody else |
| `EncodingStore.GroupIsByName` | attendance/recognition.py:94-99 | a loaded dictionary maps each name to its vectors in file order, has no name twice and no empty list |
| `EncodingStore.LoadUndoesSave` | attendance/recognition.py:94-119 | regrouping the flattened rows gives the same people, encodings and order, less people with no encodings |
| `EncodingStore.KeptAreThose` | attendance/recognition.py:108-111 | exactly the people without any encoding are missing from the file |
| `EncodingStore.ReadNamesAreClean` | attendance/recognition.py:91-96 | no name read from the arrays ends in a NUL, which numpy drops |
| `EncodingStore.FileGivesBackExactlyWhen` | attendance/recognition.py:77-134 | through the file and back the dictionary survives exactly when nobody written to it has a name ending in a NUL |
| `EncodingStore.SavedIsLoaded` | attendance/recognition.py:77-134 | a dictionary that was itself loaded survives a save and a load unchanged |
| `EncodingStore.IdentifyFace` | attendance/recognition.py:194-219 | the loop over the dictionary answers as its specification does, including numpy refusing an empty list |
| `EncodingStore.NearestIsTheMinimum` | attendance/recognition.py:209-210 | a person's distance is attained by one of their photos and exceeded by none |
| `EncodingStore.IdentifyIsTheClosest` | attendance/recognition.py:206-219 | whoever is closest is the answer when at or under the tolerance, Unknown otherwise, and the distance is reported either way |
| `EncodingStore.ClosestIsUnique` | attendance/recognition.py:212-214 | on a tie the earlier person in the dictionary wins, so there is one answer |
| `EncodingStore.LoadedMinimumIsDefined` | attendance/recognition.py:206-210 | against anything loaded from a file the per-person minimum exists |
| `EncodingStore.NobodyToIdentify` | attendance/recognition.py:194-219 | with nobody enrolled there is neither name nor distance, and numpy refuses exactly when somebody has no encodings |
| `EncodingCache.FaceCache.GetKnownEncodings` | attendance/recognition.py:152-176 | the stamp taken before the load decides between the cache and the file, and is what the new contents are filed under |
| `EncodingCache.FaceCache.ReloadKnownEncodings` | attendance/recognition.py:179-191 | always loads, and leaves the stamp taken before the load |
| `EncodingCache.FilesLookAlike` | attendance/recognition.py:137-149 | two files have the same stamp exactly when both are missing, or time and size are both the same |
| `EncodingCache.LoadedOnceIsEnough` | attendance/recognition.py:152-176 | while the file looks as it did at the stat of the last load, the answer and the cache stay what they are, whatever a load would find |
| `EncodingCache.DistinctStampsTellApart` | attendance/recognition.py:137-149 | versions that never share a stamp satisfy the condition the cache needs |
| `EncodingCache.TellApartIsEnough` | attendance/recognition.py:152-176 | when equal stamps mean nothing changed in between, each call returns contents the file had during that call |
| `EncodingCache.LookalikesServeStale` | attendance/recognition.py:137-149 | two look-alike versions around a different one make some call return contents that were gone |
| `EncodingCache.CurrentExactlyWhenStampsTellApart` | attendance/recognition.py:137-176 | every sequence of calls is current if and only if equal stamps mean nothing changed in between |
| `EncodingProtocol.LockStep` | attendance/enrolment.py:71-107 | every step keeps one process in the critical section, holding a copy of the file as it is |
| `EncodingProtocol.FileStep` | attendance/enrolment.py:216-221 | every step keeps each file version equal to the serial replay of the saves so far |
| `EncodingProtocol.ReadStep` | attendance/recognition.py:170-176 | every step keeps caches traceable to a version seen after their stamp, and answers current |
| `EncodingProtocol.HitIsGetKnownEncodings` | attendance/recognition.py:172-176 | a read whose stamp matches answers and leaves what get_known_encodings does |
| `EncodingProtocol.MissIsGetKnownEncodings` | attendance/recognition.py:80-96 | a read that has to load answers and leaves what get_known_encodings does, the file being looked for and opened in separate steps with anything in between |
| `EncodingProtocol.ReadsAreLinearizable` | attendance/recognition.py:170-176 | in every interleaving, each completed read returned the file's contents at some instant inside that call |
| `EncodingProtocol.NoLostUpdates` | attendance/enrolment.py:71-107 | the file is always the serial replay, in lock order, of all saves ever made |
| `EncodingProtocol.EveryCallIsAllOrNothing` | attendance/enrolment.py:332-336 | success means saved exactly once, refusal or timeout means not saved, death means at most once |
| `EncodingProtocol.OnlyTheEnrolledAreRemoved` | attendance/enrolment.py:216-221 | in every interleaving a removal that was saved named somebody who was in the version it replaced |
| `EncodingProtocol.RemovalIsRefusedExactlyWhen` | attendance/enrolment.py:218-219 | in every interleaving a removal under the lock is refused exactly when the file on disk at that moment has no such name, and otherwise goes on with a copy without them |
| `EncodingProtocol.LoneRemovalOfNobody` | attendance/enrolment.py:216-221 | a removal of somebody not on file, left to itself, is refused, saves nothing and frees the lock |
| `EncodingProtocol.LoneEditIsSaved` | attendance/enrolment.py:332-336 | any other edit left to itself is saved in one new version under its stamp, and told so |
| `EncodingProtocol.LoneEditByPerson` | attendance/enrolment.py:216-221 | then whoever was removed is gone, whoever was enrolled has the new vectors after the old, and everybody else has what they had |
| `EncodingProtocol.GivingUpIsTold` | attendance/enrolment.py:98-107 | a lock that cannot be had in time leaves file, log, lock and answers alone, and the call is told |
| `EncodingProtocol.OnlyDeathIsDeath` | attendance/enrolment.py:98-107 | no call counts as died unless its process did |
| `EncodingProtocol.DeathLeavesNothing` | attendance/enrolment.py:85-91 | after a death the successor has no cache, no call and no lock, and nobody else loses theirs |
| `EncodingProtocol.AReloadAlwaysLoads` | attendance/recognition.py:179-191 | a reload goes to the file whatever stamp the cache had |
| `EncodingProtocol.LockIsHeldByTheLiving` | attendance/enrolment.py:85-91 | the lock is held exactly by a live process inside the critical section |
| `EncodingProtocol.ReplayByPerson` | attendance/enrolment.py:216-221 | what one person has on file depends on that person's edits alone |
| `EncodingProtocol.RemovedPersonStaysGone` | attendance/recognition.py:155-163 | once a removal is saved, no later call in any worker returns that person until they are enrolled again |
| `Enrolment.Site.Enrol` | attendance/enrolment.py:282-352 | refusals change nothing, success adds exactly the accepted encodings and photos, and death at any point leaves no encoding without its photo |
| `Enrolment.Site.RemovePerson` | attendance/enrolment.py:193-227 | encodings go before photos, so at any death no photo is gone while its encodings live |
| `Enrolment.UploadsOneAfterAnother` | attendance/enrolment.py:302-313 | faces and problems of one list of uploads after another are those of each, in that order |
| `Enrolment.EveryUploadIsAccountedFor` | attendance/enrolment.py:302-313 | each upload is one face or one problem in its place, and no upload is dropped or reported twice |
| `RateLimiter.Limiter.IsRateLimited` | attendance/ratelimit.py:68-105 | answer and new store are those of the specification: touched before the check, swept, recorded and capped only when admitted |
| `RateLimiter.Limiter.Sweep` | attendance/ratelimit.py:92-94 | popping from the left leaves what the specification calls fresh |
| `RateLimiter.Limiter.Prune` | attendance/ratelimit.py:108-113 | exactly the counters that are empty or idle too long are forgotten, the rest keep their order; what that means over runs is `RateLimiterCap` |
| `RateLimiter.Limiter.EnforceCap` | attendance/ratelimit.py:116-138 | under the cap nothing happens; over it the quiet go first, then the least recently touched; what that means over runs is `RateLimiterCap` |
| `RateLimiterRuns.FreshIsTheWindow` | attendance/ratelimit.py:92-94 | sweeping a sorted deque keeps exactly the hits inside the window |
| `RateLimiterRuns.PrunedHits` | attendance/ratelimit.py:108-113 | forgetting a quiet counter changes no count inside any window the decorator accepts |
| `RateLimiterRuns.CapAccounts` | attendance/ratelimit.py:116-138 | enforcing the cap moves hits from the store to the account of lost ones, and nowhere else |
| `RateLimiterRuns.NextKeepsInv` | attendance/ratelimit.py:68-105 | every call keeps log, loss and store in balance for every counter |
| `RateLimiterRuns.DecisionIsTheLogs` | attendance/ratelimit.py:89-105 | a call is refused exactly when the full log, less what the cap threw away, has limit admissions in the closed window |
| `RateLimiterRuns.RefusalIsJust` | attendance/ratelimit.py:96-97 | even with evictions a refusal means limit real admissions in the window |
| `RateLimiterRuns.UntouchedCounterIsExact` | attendance/ratelimit.py:78-113 | for a counter the cap never popped the limiter is the unpruned log |
| `RateLimiterRuns.AtMostLimitInAnyWindow` | attendance/ratelimit.py:89-99 | every window of the rule's length, wherever it starts, holds at most limit admissions |
| `RateLimiterRuns.WorkersMultiplyTheLimit` | attendance/ratelimit.py:42-53 | workers with a store each admit together at most workers times limit |
| `RateLimiterRuns.StoreStaysUnderTheCap` | attendance/ratelimit.py:25-32 | after every call of every run the store holds at most the ceiling |
| `RateLimiterCap.OverTheCapNobodyIsIdle` | attendance/ratelimit.py:131-134 | in every run, an admission that finds the store over the ceiling leaves no counter without an admission within the last MAX_IDLE_SECONDS |
| `RateLimiterCap.UnderTheCapNobodyIsForgotten` | attendance/ratelimit.py:131-132 | in every run, a call that does not go over the ceiling leaves every other counter as it was |
| `RateLimiterCap.OnlyTheIdleAreForgotten` | attendance/ratelimit.py:108-113 | in every run, a call that throws no admission away forgets no counter that has one within the last MAX_IDLE_SECONDS |
| `RateLimiterCap.LosingTakesTooManyLive` | attendance/ratelimit.py:116-138 | in every run, admissions are thrown away only when by the full log more counters than the ceiling were admitted within the last MAX_IDLE_SECONDS; each victim and each counter left is one of those |
| `RateLimiterRuns.CallerIsNeverEvicted` | attendance/ratelimit.py:82-87 | a call never evicts the counter it has just touched |
| `RateLimiterRuns.LosingACounterTakesACrowd` | attendance/ratelimit.py:119-129 | a live counter is lost only after at least the ceiling of other counters were touched since it was, refusals counted |
| `RateLimiterRuns.ACrowdThatFitsLosesNothing` | attendance/ratelimit.py:116-138 | while no more counters have called than the ceiling, the cap throws nothing away |
| `RateLimiterRuns.ACrowdThatFitsIsExact` | attendance/ratelimit.py:78-113 | for such a crowd every decision of every counter is the unpruned log's |
| `RateLimiterRuns.RetryAfterIsExact` | attendance/ratelimit.py:96-97 | the wait is between 1 and the window plus 1, and is the least whole number of seconds after which the next attempt is admitted, refused attempts in between notwithstanding |
| `RateLimiterRuns.PacedClientIsNeverRefused` | attendance/ratelimit.py:89-105 | attempts at least g apart with limit times g above the window are never refused, whatever other counters do |
| `RateLimiterRuns.CameraIsNeverRefused` | attendance/routes/recognition.py:177 | one frame every 1.5 seconds against 60 a minute is never refused |
| `RateLimiterRuns.PruningIsHarmlessExactlyWhenDecorated` | attendance/ratelimit.py:172-177 | forgetting quiet counters is harmless for a window exactly when the decorator accepts it |
| `Register.Attendance.RegisterStudent` | attendance/attendance_db.py:21-40 | the id read back is the person's, and at most that one student is added, under the next id; rows stay |
| `Register.Attendance.CheckIn` | attendance/attendance_db.py:42-77 | checked_in exactly when the person was absent that day, and then exactly one row is added: their id, the moment, no departure, the confidence given |
| `Register.Attendance.CheckOut` | attendance/attendance_db.py:80-116 | the three answers are the three states of the person's day, and only an open row of theirs is closed, at the moment given |
| `Register.CheckInMoves` | attendance/attendance_db.py:42-77 | a check-in moves this person from absent to in on this day and moves nobody and no day else |
| `Register.CheckOutMoves` | attendance/attendance_db.py:97-103 | a check-out moves this person from in to out on this day and nothing else |
| `Register.CheckInRow` | attendance/attendance_db.py:67-69 | a check-in of somebody absent adds one row after the old ones, with their id, the day and instant of the clock, no departure and the distance given; any other leaves the rows alone |
| `Register.CheckInStudents` | attendance/attendance_db.py:21-40 | somebody unknown comes last under the next id, and everybody known stays as they were |
| `Register.CheckOutRow` | attendance/attendance_db.py:97-103 | a check-out of somebody in writes the instant into exactly one row, theirs of that day; of anybody else it writes nothing |
| `Register.RegisteringMovesNobody` | attendance/attendance_db.py:21-40 | registering anybody changes nobody's status |
| `Register.CheckInAnswer` | attendance/attendance_db.py:73-77 | the insert goes in exactly when the person was absent |
| `Register.CheckOutAnswer` | attendance/attendance_db.py:106-116 | rowcount and the later SELECT tell the status before the update |
| `Register.OpenRowsIsOneOrNone` | attendance/db.py:124-127 | with the unique index the update's rowcount is one or zero, one exactly when an open row exists |
| `Register.LeavingIsAfterArriving` | attendance/attendance_db.py:51-54 | the special case of calls strictly one after another: no departure before the arrival under a clock that never goes back |
| `RegisterRuns.StepKeepsInv` | attendance/attendance_db.py:21-116 | every statement of every request keeps the register's invariant and takes nothing back |
| `RegisterRuns.RegisterConserves` | attendance/attendance_db.py:21-116 | over every interleaving checked_in answers equal rows, checked_out answers equal leaving times, one row per person and day, every row names a student |
| `RegisterRuns.NothingIsTakenBack` | attendance/attendance_db.py:97-103 | ids, arrivals and confidences never change and a leaving time is written at most once |
| `RegisterRuns.LeftExactlyWhenClosed` | attendance/attendance_db.py:97-103 | over any stretch of any run somebody has left exactly if they had before or an update closed their open row |
| `RegisterRuns.LoneCheckOutIsExact` | attendance/attendance_db.py:80-116 | four uninterrupted statements are the sequential check_out |
| `RegisterRuns.LoneCheckInIsExact` | attendance/attendance_db.py:42-77 | five uninterrupted statements are the sequential check_in |
| `RegisterRuns.LoneEnlistIsExact` | attendance/attendance_db.py:21-40 | two uninterrupted statements answer with the person's id and add at most the one student |
| `RegisterRuns.AlreadyOutIsRightExactlyWhen` | attendance/attendance_db.py:100-116 | for any request of any interleaving, already_out is right if and only if the row was there at its update or another check-out of the same person closed it before its SELECT |
| `RegisterRuns.AlreadyOutIsRightForWhoeverHadArrived` | attendance/attendance_db.py:80-116 | for somebody who had arrived when the request began already_out is always right |
| `RegisterRuns.AlreadyOutCanBeWrong` | attendance/attendance_db.py:110-116 | an interleaving in which already_out is said of somebody who is in |
| `RegisterRuns.OverlapCanInvertTimes` | attendance/attendance_db.py:93-103 | an interleaving in which the departure recorded precedes the arrival |
| `RegisterTimes.EveryPairWasRecorded` | attendance/attendance_db.py:51-103 | behind every row with a leaving time are a check-in and a check-out, each of which read the clock and then wrote |
| `RegisterTimes.EveryRowIsItsCheckIn` | attendance/attendance_db.py:51-69 | in every interleaving each row is one check-in's: its person, the day and instant it read off the clock, and the distance it came with |
| `RegisterTimes.InvertedExactlyWhen` | attendance/attendance_db.py:51-103 | under a clock that never goes back the departure recorded is before the arrival if and only if the check-out read the clock first and it moved before the check-in read it, which puts the check-in inside the check-out |
| `RegisterTimes.StandingRowIsClosedInOrder` | attendance/attendance_db.py:93-103 | a row already there when a check-out reads its clock is never closed before its arrival, whatever else is under way |
| `RegisterTimes.NoOverlapNoInversion` | attendance/attendance_db.py:42-116 | a person whose requests do not overlap each other never has a departure before the arrival, whatever everybody else does |
| `Frames.Summarise` | attendance/routes/recognition.py:101-107 | the loop returns the highest-ranked status seen, unknown for none |
| `Frames.HandleOneFace` | attendance/routes/recognition.py:273-332 | result and register after one face are those of the gates in order |
| `Frames.HandleIdentified` | attendance/routes/recognition.py:306-332 | result and register once a name is known, kiosk or personal |
| `Frames.Recognize` | attendance/routes/recognition.py:259-270 | at most five faces, one after another on the register, and the summary of what they gave |
| `Frames.FaceIsCounted` | attendance/routes/recognition.py:329-332 | a marked result is one new entry in the register, an unmarked one changes nothing |
| `Frames.FrameIsCounted` | attendance/routes/recognition.py:259-270 | marked results of a frame equal rows added plus leaving times set |
| `Frames.SummaryOutranks` | attendance/routes/recognition.py:31-37 | the summary was seen and nothing ranked above it was |
| `Frames.SummaryTellsOfMarks` | attendance/routes/recognition.py:101-107 | the summary is checked_in or checked_out exactly when some face was marked |
| `Frames.RefusedFaceLeavesNoTrace` | attendance/routes/recognition.py:281-298 | a face refused by liveness or by a failed model changes nothing and carries no name |
| `Frames.TheGate` | attendance/routes/recognition.py:281-298 | an error exactly for a face without a score, a spoof exactly for a score under the threshold, the threshold itself passing |
| `Frames.UnencodableFaceIsSkipped` | attendance/routes/recognition.py:300-302 | a live face that cannot be encoded is not reported and changes nothing |
| `Frames.StrangerLeavesNoTrace` | attendance/routes/recognition.py:304-307 | a live face with nobody enrolled within the tolerance is unknown, has no name and changes nothing, in either mode |
| `Frames.RecognisedIsNamed` | attendance/routes/recognition.py:309-332 | a face whose closest person is within the tolerance, at the kiosk or linked to the account, gets that name and distance and the status the day before it called for |
| `Frames.RecognisedIsRecorded` | attendance/routes/recognition.py:327 | the register then is what one check-in or check-out of that person makes of it, with that distance |
| `Frames.RecognisedMoves` | attendance/routes/recognition.py:327 | that person's day moves on by one and no other person or day moves |
| `Frames.ArrivalIsOneRow` | attendance/routes/recognition.py:327-332 | an arrival is one new row, of the person named, with the reported distance for its confidence |
| `Frames.OthersAreNotNamed` | attendance/routes/recognition.py:314-322 | in personal mode somebody else's face is told as not_linked or mismatch without a name, and changes nothing |
| `Frames.TheFirstFiveAreHandled` | attendance/routes/recognition.py:260 | up to five faces are all handled, of more the first five |
| `Frames.FacesTakeTurns` | attendance/routes/recognition.py:259-265 | each face meets the register as those before it left it, and results come in their order |
| `Frames.PillRanksFirst` | attendance/routes/recognition.py:31-37 | the summary is the seen status of least rank in the fixed order of all ten, and unknown for none |
| `Frames.PersonalName` | attendance/routes/recognition.py:314-322 | in personal mode a name is given only to the linked student |
| `Frames.PersonalModeTouchesOnlyItsOwner` | attendance/routes/recognition.py:314-322 | in personal mode only the linked student's rows can change over a whole frame, and nobody is registered |
| `Search.EscapedIsGuarded` | attendance/attendance_db.py:155 | the three ordered replaces guard each special character exactly once |
| `Search.EscapingIsExact` | attendance/attendance_db.py:148-160 | for every query and text the pattern matches exactly when the query is a substring, ignoring ASCII case |
| `Search.FoldingIsCase` | attendance/attendance_db.py:158 | two characters count as the same exactly when they are, or are one ASCII letter in either case |
| `Search.WildcardsMatchTooMuch` | attendance/attendance_db.py:148-150 | unescaped, a query of one percent sign matches every text and one of an underscore every text but the empty one |
| `Search.SelectsIsSearch` | attendance/attendance_db.py:141-160 | a row is selected exactly when the query is empty or its name or date contains it |
| `Search.AnswerIsTheSearch` | attendance/attendance_db.py:184-208 | the rows paged through are exactly the matching ones, each as often as it is stored, and as many as the total says |
| `Search.SummaryIsOfTheWholeResult` | attendance/attendance_db.py:163-181 | rows, people and days are counted over the whole result |
| `Search.SliceIs` | attendance/attendance_db.py:202-206 | a page is limit rows from offset on, or as many as there are |
| `Search.ExportIsEverything` | attendance/attendance_db.py:187-190 | with no limit the answer is every row |
| `Search.TheNewestComesFirst` | attendance/attendance_db.py:201 | the first row of an answer is of the latest day, and of that day has the last arrival as text |
| `Paging.CeilingIsLeast` | attendance/pagination.py:24 | the double negation is the least number of pages that holds everything |
| `Paging.EveryNumberLands` | attendance/pagination.py:26-30 | any requested number lands on an existing page, itself when it exists, and that page shows something if anything is there |
| `Paging.StrayNumbersLand` | attendance/pagination.py:18-30 | no number, 0 and below land on page 1, the last number and above on the last page, whose slice reaches the end |
| `Paging.PagesPartitionTheResult` | attendance/pagination.py:18-30 | pages 1 to count in order are exactly the result, each row once |
| `Paging.PagesShowTheSearch` | attendance/attendance_db.py:184-208 | over all pages of a query each matching row appears as often as stored and no other row at all |
| `Calibration.EffectiveSamples` | scripts/calibrate_liveness.py:187-204 | the accumulated total is the sum of the runs' worths |
| `Calibration.Lag1IsACorrelation` | scripts/calibrate_liveness.py:175-184 | for every list of scores the correlation is between -1 and 1 |
| `Calibration.ConstantRun` | scripts/calibrate_liveness.py:175-182 | a run of one score repeated correlates as 1, and fewer than three frames as 0 |
| `Calibration.AlternatingRun` | scripts/calibrate_liveness.py:175-184 | 2m frames going back and forth between any two scores correlate as -(2m - 1) / 2m |
| `Calibration.CorrelationHasNoUnit` | scripts/calibrate_liveness.py:175-184 | shifting and scaling every score changes nothing |
| `Calibration.ClampTakesLittle` | scripts/calibrate_liveness.py:202 | the clamp removes at most 0.01 from a positive correlation |
| `Calibration.WorthIsAtMostTheFrames` | scripts/calibrate_liveness.py:187-204 | the effective count is positive as soon as there is a frame and never exceeds the frames |
| `Calibration.WorthFallsWithCorrelation` | scripts/calibrate_liveness.py:187-204 | a run that resembles itself more never makes the whole worth more |
| `Calibration.OneRunIsWorth` | scripts/calibrate_liveness.py:202-203 | a run is worth w frames with w (1 + r) = n (1 - r), all n of them for r at most 0, and r counting as 0.99 above that |
| `Calibration.RunsAddUp` | scripts/calibrate_liveness.py:200-204 | several runs are worth the sum of what each is worth |
| `Thresholds.FindCandidates` | scripts/calibrate_liveness.py:319-331 | the loop fills the sorted set of candidates |
| `Thresholds.CostsAreCounts` | scripts/calibrate_liveness.py:312-316 | the two costs are how many real scores are below the threshold and how many spoof scores are not |
| `Thresholds.Round2IsTheNearest` | scripts/calibrate_liveness.py:329-330 | a rounding is a whole number of hundredths, the nearest one, the even one of two as near |
| `Thresholds.CandidatesAre` | scripts/calibrate_liveness.py:319-331 | the list is ascending and holds zero, each score rounded and a hair above each, and nothing else |
| `Thresholds.OnlyCrossingsCount` | scripts/calibrate_liveness.py:322-325 | two thresholds refuse the same frames exactly when no score lies between them |
| `Thresholds.SameDecisionMeansNothingBetween` | scripts/calibrate_liveness.py:312-325 | two thresholds cost the same exactly when no score of either kind lies between them |
| `Thresholds.CandidatesAreCompleteExactlyWhenSeparated` | scripts/calibrate_liveness.py:322-331 | the candidates cover the decision of every real threshold if and only if a rounding is at or below all scores and any two different scores have one between them |
| `Thresholds.GridIsComplete` | scripts/calibrate_liveness.py:322-331 | for scores to the hundredth they cover every decision |
| `Thresholds.CrowdedScoresHideADecision` | scripts/calibrate_liveness.py:322-331 | two unrounded scores between which no candidate falls |
| `Thresholds.SafestIsAHairAboveTheSpoofs` | scripts/calibrate_liveness.py:349-359 | there is always a safest threshold, above every spoof score by at most 0.015 |
| `Thresholds.SafestIsLeast` | scripts/calibrate_liveness.py:349-359 | it is a candidate that blocks, and no lower candidate does |
| `Thresholds.SafestIsBestExactlyWhenNoRoom` | scripts/calibrate_liveness.py:352-354 | it refuses least of all blocking thresholds, candidates or not, if and only if every real score above all spoofs has a rounding between them and it |
| `Thresholds.CompleteMakesSafestBest` | scripts/calibrate_liveness.py:352-354 | when the candidates cover every decision it refuses least |
| `Thresholds.RecommendationIsSound` | scripts/calibrate_liveness.py:362-374 | a recommended threshold is the lowest candidate that blocks every spoof, and refuses less than the limit's share |
| `Thresholds.UsableExactlyWhen` | scripts/calibrate_liveness.py:362-374 | some threshold blocks every spoof and refuses less than the limit's share exactly when the real frames no higher than some spoof are fewer than that |
| `Thresholds.RecommendsExactlyWhen` | scripts/calibrate_liveness.py:362-374 | something is recommended exactly when there are real frames and those no rounding reaches are fewer than the limit's share |
| `Thresholds.NothingIsRecommendedExactlyWhen` | scripts/calibrate_liveness.py:362-374 | for every input, None is returned just when nothing is usable if and only if the limit does not fall between those two shares |
| `Thresholds.NoRoomIsRightToRefuse` | scripts/calibrate_liveness.py:362-374 | with no real score in the gap that holds for every limit |
| `Thresholds.OnTheGridTheChoiceIsBest` | scripts/calibrate_liveness.py:349-374 | for scores to the hundredth the choice is the best of all thresholds and None means none would do |
| `Thresholds.AGapCanHideAUsableThreshold` | scripts/calibrate_liveness.py:362-374 | a run for which None is returned though a threshold blocks all spoofs and refuses nobody |
| `Stretches.StretchesAllPassing` | scripts/calibrate_liveness.py:489-495 | the nested loops compute the share of passing stretches, none straddling two runs |
| `Stretches.StretchesAre` | scripts/calibrate_liveness.py:492-494 | a stretch is n frames in a row of one run, and every such is one |
| `Stretches.EveryStretchIsJudged` | scripts/calibrate_liveness.py:492-494 | each stretch is judged once, in order, and passes exactly when all its frames reach the threshold |
| `Stretches.ShareTimesStretches` | scripts/calibrate_liveness.py:495 | the share times the number of stretches is a hundred times the number that pass; with no stretches it is 0 |
| `Stretches.ZeroMeansNoStretch` | scripts/calibrate_liveness.py:489-495 | the percentage is zero exactly when no stretch of n frames passes |
| `Stretches.LongerAndStricterPassLess` | scripts/calibrate_liveness.py:489-495 | if n+1 frames pass at a threshold, n frames pass at any lower one |
| `Stretches.MoreFramesNeverRaiseTheThreshold` | scripts/calibrate_liveness.py:523-530 | the lowest blocking threshold never rises with N |
| `Stretches.AtOneFrameItIsTheSafest` | scripts/calibrate_liveness.py:523-530 | at N = 1 it is safest_threshold on the pooled frames |
| `Stretches.Consecutive` | scripts/calibrate_liveness.py:523-535 | the loop prints one line per N from 1 to 5, each the specified one |
| `Stretches.TheTableOnlyFalls` | scripts/calibrate_liveness.py:523-535 | every line has a threshold, admits no spoof stretch and prints the share of real stretches it accepts, and thresholds only fall down the table |
| `Clock.ParseUndoesStamp` | attendance/clock.py:54-70 | reading a printed stamp gives the same moment to the second, seconds of offset included |
| `Clock.AStampLooksLikeThis` | attendance/clock.py:54-56 | the documented moment is printed as documented, character by character |
| `Clock.OnlyRealMomentsAreRead` | attendance/clock.py:59-70 | whatever is read is a date and time that exist |
| `Clock.CombineKeepsTheWallClock` | attendance/clock.py:79-90 | the stamp of a naive row is its date, a T, its time and the offset, one-digit fields written with two |
| `Clock.LooseFieldsAreRead` | attendance/clock.py:86-90 | every way of writing a wall clock, with or without leading zeros, is read as that wall clock in the given zone |
| `Clock.DayNumbersCountDays` | attendance/clock.py:54-56 | the day number behind an instant goes up by one from each date to the next, leap years and year ends included |
| `Clock.DaysInOrder` | attendance/clock.py:54-56 | the day number rises with year, month and day, leap years included |
| `Clock.MonthLengths` | attendance/clock.py:54-56 | the twelve months have their lengths, February 29 days exactly in leap years |
| `Clock.TextSortsByWallClock` | attendance/clock.py:3-5 | stamps sort as text by wall clock first and by offset only on a tie |
| `Clock.ZoneTextInOrder` | attendance/clock.py:54-56 | offsets sort as text with plus before minus and by size within a sign |
| `Clock.StringOrderIsTimeOrderExactlyWhen` | attendance/clock.py:3-5 | string order and time order agree on two stamps if and only if the clock faces do not differ by less than the offsets do in the same direction, ends as the offsets' own order decides |
| `Clock.StringOrderIsTimeOrder` | attendance/clock.py:3-5 | for equal offsets string order is time order, both ways |
| `Clock.WhenTheClocksGoBack` | attendance/clock.py:11-13 | two moments of different offset that sort against time |
| `Clock.LastRowIsTheEarliest` | attendance/attendance_db.py:124-131 | the last row of a day at one offset is the earliest arrival |
| `Duration.DurationIsTheInstants` | attendance/formatting.py:24-40 | two pairs show the same text exactly when the same whole minutes passed, or both are negative |
| `Duration.SpokenIsUnambiguous` | attendance/formatting.py:35-40 | different whole minutes are never shown alike |
| `Duration.WordsSayTheMinutes` | attendance/formatting.py:35-40 | reading hours and minutes back from the words gives the minutes they were made from |
| `Duration.NoLeadingZero` | attendance/formatting.py:35-40 | no number is written with a zero in front |
| `Duration.MinutesAreWhole` | attendance/formatting.py:29 | the minutes are those wholly passed, rounded down before zero too |
| `Duration.ClockFacesAreOffByTheChange` | attendance/formatting.py:15-18 | the clock faces are wrong by exactly the change of offset |
| `Duration.ADashMeans` | attendance/formatting.py:24-33 | a dash exactly for a missing, unreadable or negative span, and TypeError exactly for one time with an offset and one without |
| `Duration.NaiveTimes` | attendance/formatting.py:24-29 | a naive time beside one with an offset raises, two naive times are measured by the clock faces |
| `Migration.Connection.CreateSchema` | attendance/db.py:69-133 | fails exactly on a duplicate day, else leaves the migrated database, and all that was ever on disk is among the listed waypoints |
| `Migration.Connection.RunMigrations` | attendance/db.py:141-184 | each missing column is added in turn, the approvals in one transaction with what follows |
| `Migration.Connection.GiveOldTimestampsAnOffset` | attendance/db.py:187-219 | the row-by-row loop rewrites exactly the naive, readable rows |
| `Migration.CanIndex` | attendance/db.py:124-127 | the unique index can be made exactly when no two rows share date and student |
| `Migration.DuplicatesAreFewerDays` | attendance/db.py:124-127 | rows repeat exactly when there are fewer pairs of a date and a student than rows |
| `Upgrades.ReachesTheCurrentShape` | attendance/db.py:141-184 | one run takes every historical shape to the present one |
| `Upgrades.AttendanceIsKept` | attendance/db.py:167-182 | every attendance row keeps id, student, date and confidence, none added or lost |
| `Upgrades.ArrivalsKeepTheirWallClock` | attendance/db.py:201-219 | a naive readable arrival becomes a stamp with its own date and time, one-digit fields written with two, that reads back as that moment; any other is left alone |
| `Upgrades.DeparturesAreLostExactlyWhen` | attendance/db.py:215-219 | a departure becomes NULL exactly when its row is rewritten and it cannot be read beside the date |
| `Upgrades.MixedRowLosesItsDeparture` | attendance/db.py:215-219 | a row with a naive arrival and a departure that carries an offset loses the departure, in every zone |
| `Upgrades.ApprovesOnlyWhenTheColumnWasMissing` | attendance/db.py:148-165 | accounts keep everything, are approved exactly when that column was missing, and are linked to nobody when that one was |
| `Upgrades.NoRunLinksAnybody` | attendance/db.py:160-167 | every account is linked to whom it was, and to nobody if there was no such column |
| `Upgrades.NoDeathLinksAnybody` | attendance/db.py:160-167 | the same for what is on disk at any death, and for the run that takes up from there in any zone |
| `Upgrades.StudentsAreKept` | attendance/db.py:84-90 | the table of students, where there is one, is untouched |
| `Upgrades.FreshDatabase` | attendance/db.py:69-133 | from nothing a run makes the three tables of today, indexed and empty |
| `Upgrades.FixedIsFixed` | attendance/db.py:200-204 | a rewritten row is never rewritten again, in whatever zone |
| `Upgrades.SecondRunChangesNothing` | attendance/db.py:141-219 | after any signups, approvals, links, check-ins and check-outs a second run changes nothing, whatever zone is configured by then |
| `Upgrades.StrandedAccounts` | attendance/db.py:148-157 | dying between the new column and the commit leaves old accounts unapproved by the next run too |
| `Upgrades.DeathIsHarmlessExactlyWhen` | attendance/db.py:148-157 | from whatever is on disk at a death the next run, in the same zone or another, finishes the job, for every death, exactly when there are no accounts from before approvals |

## Left out

- EncodingProtocol.NoLostUpdates: is about enrolment and removal; `scripts/build_encodings.py` scans outside the lock and can overwrite an enrolment made meanwhile.
- Enrolment.Site.RemovePerson: one call on its own; overlapping an enrolment of the same person, whose photos are written outside the lock, photos and encodings can part ways.
- Enrolment.Site.Enrol: `validate_name`, `person_directory`, suffix checks, `spread` and `variety_warning` are not modelled; each upload is already a face or a problem.
- EncodingStore.IdentifyIsTheClosest: a person enrolled as "Unknown" is the answer for nobody, as in the source, and is not treated apart.
- RateLimiter.Limiter.IsRateLimited: a rule has a limit of at least 1, since a limit of 0 would index an empty deque, and a window the decorator accepts; one thread per worker, as deployed.
- RateLimiterRuns.WorkersMultiplyTheLimit: for counters the cap never popped; a popped counter starts afresh.
- Register.Attendance.RegisterStudent: `date_registered` is not kept.
- Register.LeavingIsAfterArriving: covers calls strictly one after another; the interleavings are those of `RegisterTimes.NoOverlapNoInversion`.
- Frames.Recognize: decoding the image, finding the faces, the site check and the audit lines are not part of the model; distances are not rounded for display.
- Search.EscapingIsExact: texts are plain characters; SQLite's treatment of a NUL inside text is not modelled.
- Paging.EveryNumberLands: the page size is at least 1; the source would divide by zero.
- Calibration.Lag1IsACorrelation: over the reals, not over floating point; likewise every threshold result.
- Clock.OnlyRealMomentsAreRead: the reader accepts the printed form with or without seconds of offset; `datetime.fromisoformat` reads more forms.
- Clock.CombineKeepsTheWallClock: `strptime` also accepts extra white space and digits of other scripts; and some C libraries print years before 1000 without leading zeros, where here they have four digits.
- Upgrades.ArrivalsKeepTheirWallClock: the same white space and digits.
- Duration.ADashMeans: of the forms without an offset only date, T and time to the second are read.
- Migration.Connection.CreateSchema: the shapes are those the schema has had, with the arrival under one of its two names; table constraints other than keys, and the journal mode, are not modelled.
- Passwords, sessions, CSRF, templates, configuration and audit: plumbing, or single-branch claims.
- `match_quality`, `match_strength`, `on_site`, the desktop viewer and the other scripts: easy, or library-bound.
