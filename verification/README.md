# Verified model of the study platform's protocols, seeds and remediations

The repository is a web platform for schools and students: a NestJS/Prisma backend and a
Next.js frontend. This project models the parts of it whose correctness is not visible from one
function body, and proves what they keep. Everything is stated for all inputs, all interleavings
and all runs; sizes (numbers of requests, courses, schools, students, rows, polls) are symbolic.

* **Session refresh** (`SessionRefresh`, `SessionRefreshProofs`, `SessionRefreshLaws`,
  `SessionRefreshClient`). Concurrent requests share one refresh promise. The protocol is a
  machine whose steps are the moments at which a callback runs: a request is sent, answered,
  joins or starts a refresh, the refresh is answered, its `finally` runs, a waiter resumes.
  `ApiClient` holds the module variables and each of its methods is proved to be one step.
* **Teacher timetable** (`Timetable`). Greedy placement of courses in a 5-day, 4-block grid, with
  bookings per teacher. Safety of the whole run is characterised by an if-and-only-if.
* **National seed** (`Residues`, `Population`, `Rosters`, `Teaching`, `Dates`, `Batches`).
  Students go to schools, programmes and levels by repeated division; teachers take courses in
  turn; dates are spread by steps of 17; rows are inserted in batches that skip duplicates and
  are then checked.
* **Enrolment backfill** (`Backfill`, `BackfillRows`, `BackfillReruns`). A map in which the last
  application of a (student, school) pair wins, then one upsert per entry; and what running it
  again can change.
* **Contact data remediation** (`PiiFormat`, `Utf8`, `Remediation`, `RemediationLaws`). The
  printed form of an encrypted field, its recogniser, and a script that may be stopped at any row
  and started again. AES-256-GCM is an arbitrary function of IV and plaintext that keeps the
  length and can be opened.
* **Student list screen** (`StudentDirectory`, `StudentDirectoryLaws`, `CsvImport`). The
  debounced, cancellable load effect as a machine of user actions, renders, timers and answers;
  and the CSV reader.
* **Notification bell** (`Announcer`, `AnnouncerLaws`). Overlapping polls, answered in any order,
  and the set of known ids.

`Text` holds the JavaScript string operations in use, `Wrappers` the option and result types.

A state machine is given twice: as a class (or method) with the source's variables and loops, and
as a value-level specification (`Next`, `PlaceFirst`, `Requirements`, `InsertAll`, `Backfilled`,
`RunStep`) to which every method is tied by its `ensures`. The theorems are about the latter.
The modules named `...Laws` and `...Rows` state results in the system's own terms (status codes,
pages, texts, rows), without the specification's functions.
The table names the methods that branch or loop; the remaining callbacks of each class are tied
to the same specification in the same way.

## Where the code does not do what its comments or its screens suggest

* The backfill says that the most recent application wins. Ascending order in PostgreSQL puts
  null decision dates last, so an undated application wins over every dated one:
  `Backfill.KeepsMostRecentIff` gives the exact condition, `Backfill.UndatedOlderApplicationWins`
  an example.
* Clicking the page number already shown starts the spinner but changes no dependency of the load
  effect, so nothing stops it: `StudentDirectory.ClickOnActivePage`, and over whole runs
  `StudentDirectory.NeverStallsIff`.
* The CSV reader drops the first line *after trimming*, so a blank header line costs the first
  student: `CsvImport.BlankHeaderDropsFirst`.
* The recogniser of encrypted fields accepts more than the encryption prints (upper-case digits,
  odd cipher length): `PiiFormat.RecogniserExactness`.
* The badge of the bell shows the total of the poll answered last, which need not be the poll
  sent last: `Announcer.BadgeIsRightIff` and `Announcer.AlwaysRightIff` say exactly when it is
  right, `Announcer.BadgeCanGoBack` gives a run in which it is not.
* The backfill calls itself idempotent. Its queries leave choices open: applications that tie in
  both dates come in any order, and any current year of a school may be found. A second run
  may therefore rewrite rows; `BackfillReruns.RepeatableIff` says exactly when it cannot,
  `BackfillReruns.TiedApplicationsCanSwap` and `BackfillReruns.CurrentYearsCanSwap` give the two
  kinds of input on which it can.

## Conditions the seeds meet

* `distributedDate` spreads evenly exactly when 17 does not divide the span
  (`Dates.SpreadsEvenlyIff`); the seed's span is 520 days.
* The timetable loop gives up after twenty attempts and books anyway. `Timetable.TimetableIsSafe`
  and `Timetable.SeedIsSafe` say exactly when that double-books somebody; in the demo seed no
  teacher gives more than six of the courses to be placed.
* Dates are reconciled as planned exactly when no student is planned twice with different dates
  (`Batches.ReconciledIff`); the seed's ids are distinct.

## Model

| member | source | states |
|---|---|---|
| `SessionRefreshProofs.RefreshNeverAwaitsItself` | frontend/lib/api-client.ts:126-137 | The refresh post's own failure never takes the branch that awaits a refresh, whatever the error and the marks on the request |
| `SessionRefreshProofs.StepKeepsInv` | frontend/lib/api-client.ts:82-155 | Every callback, in any order, keeps: one running refresh named by the promise variable, at most one MFA warning, and a lawful history for every request |
| `SessionRefreshProofs.OneRefreshAtATime` | frontend/lib/api-client.ts:70-93 | In every reachable interleaving at most one refresh is running, the promise variable is set exactly while one is, no refresh waits for a refresh, and the MFA warning was shown at most once |
| `SessionRefreshProofs.StepSpendsBudget` | frontend/lib/api-client.ts:129-137 | Each step strictly decreases a measure over phases and retry marks, whatever the server answers |
| `SessionRefreshProofs.RunBounds` | frontend/lib/api-client.ts:82-137 | n requests allow at most 6n steps, 2n sends and n refresh posts, so every run is finite |
| `SessionRefreshProofs.QuietMeansDone` | frontend/lib/api-client.ts:82-156 | No deadlock: no step is enabled if and only if every request is finished and no refresh runs |
| `SessionRefreshProofs.FinishedStories` | frontend/lib/api-client.ts:123-155 | A finished request was answered without retry, or was refused after its refresh failed (redirect, then rejection with its own 401), or was resent exactly once after its refresh succeeded and ended with that reply |
| `SessionRefreshProofs.JoinersShareTheOutcome` | frontend/lib/api-client.ts:82-137 | Requests suspended on the same refresh resume with the same outcome, even if a newer refresh has started |
| `SessionRefreshLaws.SuspendsIff` | frontend/lib/api-client.ts:126-135 | A reply suspends a request if and only if it is a 401 that carries its request, the request was not retried, and its url holds none of the four exempt paths |
| `SessionRefreshLaws.SuspendsOnRunningRefresh` | frontend/lib/api-client.ts:82-93 | A suspended request awaits the refresh that is running, or else one newly posted |
| `SessionRefreshLaws.OtherRepliesEnd` | frontend/lib/api-client.ts:124-154 | Any other reply ends the request, with the answer or the very error that came back; a redirect precedes the rejection if and only if it is a 401 in a browser, not on an exempt url with its request |
| `SessionRefreshLaws.ResumeFollowsRefresh` | frontend/lib/api-client.ts:133-154 | A waiter is sent again if its refresh succeeded, and otherwise rejected with its own 401, in a browser after a redirect |
| `SessionRefreshLaws.RefreshOutcomeIsTheServers` | frontend/lib/api-client.ts:84-90 | A refresh settles as the success or failure the server answered |
| `SessionRefreshLaws.RefreshRedirectsIff` | frontend/lib/api-client.ts:126-141 | The failure of the refresh redirects by itself only if it is a 401 that lost its request |
| `SessionRefreshLaws.MfaToastAtFirstAsking` | frontend/lib/api-client.ts:99-153 | At every moment of a run the MFA warning has been shown once if some reply so far was a 403 with the marker, and otherwise never |
| `SessionRefreshLaws.StoriesSpelledOut` | frontend/lib/api-client.ts:123-155 | What a finished request has gone through, act by act, with status codes and urls spelled out |
| `SessionRefreshClient.ApiClient.RefreshSession` | frontend/lib/api-client.ts:82-93 | Joins the running refresh or posts exactly one new one; nothing else changes |
| `SessionRefreshClient.ApiClient.OnError` | frontend/lib/api-client.ts:125-154 | The interceptor's verdict and the one-time MFA flag |
| `SessionRefreshClient.ApiClient.ReceiveAnswer` | frontend/lib/api-client.ts:123-155 | A reply resolves, rejects, or marks and suspends the request: the machine's step |
| `SessionRefreshClient.ApiClient.ResumeRequest` | frontend/lib/api-client.ts:133-141 | A waiter resends after a success, redirects and rejects after a failure |
| `Timetable.ToMinutesOfClock` | backend/prisma/seed.ts:2317-2320 | Reading a padded clock time gives 60h + m |
| `Timetable.ProbeVisitsEachCellOnce` | backend/prisma/seed.ts:2361-2374 | For every start index, attempts 0 to 19 are a bijection onto the twenty cells and attempt 20 is back at the start |
| `Timetable.NextProbe` | backend/prisma/seed.ts:2368-2373 | The closed form of the probe agrees with the loop's own update of block and day |
| `Timetable.ChooseFindsFirstFree` | backend/prisma/seed.ts:2361-2375 | The loop stops on the first free cell in probe order; it stops on a free cell if and only if there is one |
| `Timetable.BlocksOfADay` | backend/prisma/seed.ts:2294-2299 | The cells of a day are the two-hour blocks from 8 to 12 and from 13 to 17 |
| `Timetable.PlacementBlocksOneCell` | backend/prisma/seed.ts:2325-2348 | A placement blocks its own cell and no other |
| `Timetable.PlaceOne` | backend/prisma/seed.ts:2358-2375 | One placement uses up one free cell while there is one, and overlaps otherwise |
| `Timetable.PlaceFirstByTeacher` | backend/prisma/seed.ts:2321-2375 | A teacher's bookings depend only on that teacher's own fixed bookings and courses |
| `Timetable.TimetableIsSafe` | backend/prisma/seed.ts:2312-2375 | After the full loop no teacher is double-booked if and only if, for every teacher, the fixed bookings are disjoint and blocked cells plus courses do not exceed twenty |
| `Timetable.OverfullTeacher` | backend/prisma/seed.ts:2358-2375 | A teacher of twenty-one courses is double-booked |
| `Timetable.FixedSlots` | backend/prisma/seed.ts:2351-2356 | The fixed bookings in minutes are those of the clock times in the script |
| `Timetable.FixedBlockedCells` | backend/prisma/seed.ts:2349-2356 | The fixed bookings block five and four cells |
| `Timetable.SeedIsSafe` | backend/prisma/seed.ts:2349-2375 | The seed as written is safe if and only if the first teacher has at most 15 courses to place, the second at most 16, all others at most 20 |
| `Timetable.TeacherTimetable.FindSlot` | backend/prisma/seed.ts:2361-2374 | The probe loop ends on the specification's choice |
| `Timetable.TeacherTimetable.PlaceCourses` | backend/prisma/seed.ts:2358-2375 | The whole loop computes `PlaceFirst`, about which `TimetableIsSafe` is proved |
| `Residues.CountResidueClosed` | backend/prisma/seed/national.ts:805-807 | Among 0..n-1, floor((n + m - 1 - r) / m) numbers leave remainder r modulo m |
| `Population.EnrollStudents` | backend/prisma/seed/national.ts:794-829 | The loop yields for every index i a plan of student i at school i modulo the number of schools, in a programme of that very school, at the level of its round; class counts equal the numbers of plans |
| `Population.ProgramBalance` | backend/prisma/seed/national.ts:797-804 | Any two programmes of the country differ by at most one student |
| `Population.NextRound` | backend/prisma/seed/national.ts:799-807 | When a programme receives a student, the round deciding the level is the number of students it already has |
| `Population.LevelBalance` | backend/prisma/seed/national.ts:796-809 | For every N: with Q students in a programme of d years, level l has floor((Q + d - l) / d) |
| `Population.LevelsDifferByOne` | backend/prisma/seed/national.ts:805-809 | Lower levels are never smaller and at most one student larger |
| `Population.PlanHasOneClass` | backend/prisma/seed/national.ts:830-843 | Every plan falls in exactly one of the classes created |
| `Population.Conservation` | backend/prisma/seed/national.ts:794-843 | For any weight per class, summing it over plans or over classes times recorded count is the same |
| `Population.ClassCountsSumToStudents` | backend/prisma/seed/national.ts:794-843 | The recorded class counts add up to the number of students |
| `Teaching.PlanCourses` | backend/prisma/seed/national.ts:1039-1142 | Fails if and only if some programme has no teacher or some course no class, with the error of the first such programme; otherwise requirements, pools and qualifications are exactly those specified |
| `Teaching.SeedNeverFails` | backend/prisma/seed/national.ts:1076-1083 | On the programmes, classes and teachers the seed builds neither error can occur |
| `Teaching.RequirementsInOrder` | backend/prisma/seed/national.ts:1076-1103 | Course i of programme p stands at place p*subjects + i, at level i modulo years plus 1, for subject i of its school, with the teacher whose turn it is |
| `Rosters.ListTeachers` | backend/prisma/seed/national.ts:870-893 | The nested loop lists the teachers school by school |
| `Rosters.TeachersBySchool` | backend/prisma/seed/national.ts:1033-1038 | The grouping keeps every teacher under the right school, in order, and nobody else |
| `Rosters.SeedRoster` | backend/prisma/seed/national.ts:1033-1038 | Grouping the seed's list gives the roster the teacher-load theorem is about |
| `Teaching.AddKeepsQualifications` | backend/prisma/seed/national.ts:1104-1109 | The qualification map stays exactly the set of (affectation, subject) pairs used by some requirement |
| `Teaching.RequirementsOfSeed` | backend/prisma/seed/national.ts:698-706 | Walking the flat programme list is walking schools and templates in turn |
| `Teaching.TeacherLoads` | backend/prisma/seed/national.ts:1076-1103 | Teacher k of K has floor((P*M + K - 1 - k) / K) of the school's P*M courses, so colleagues differ by at most one |
| `Teaching.PlannedIsSeedCurriculum` | backend/prisma/seed/national.ts:1071-1142 | What the loop leaves on the seed's own programmes is the curriculum the theorems on pools and enrolments are about |
| `Teaching.PoolsOfSeed` | backend/prisma/seed/national.ts:1137-1140 | The pool of level l holds exactly that level's courses, floor((M + d - l) / d) of them |
| `Teaching.EnrollInCourses` | backend/prisma/seed/national.ts:1368-1384 | The enrolment loop produces, student by student, the first four courses of the pool |
| `Teaching.EnrollmentTotal` | backend/prisma/seed/national.ts:1373-1384 | Enrolments total the sum over classes of studentCount * min(4, pool size) |
| `Teaching.FirstFourInOrder` | backend/prisma/seed/national.ts:1373-1384 | Pair by pair: each student in turn is enrolled in the first four courses of the pool of the own level, in order, or in all if fewer |
| `Teaching.EnrollmentsAreSound` | backend/prisma/seed/national.ts:1373-1384 | No (course, student) pair is repeated and every course matches the student's programme and level |
| `Dates.DistributedDate` | backend/prisma/seed/national.ts:512-516 | The date falls within the span that begins at the start, at an offset congruent to 17 times the index modulo the span |
| `Dates.DateByOffset` | backend/prisma/seed/national.ts:512-516 | Those two facts hold of exactly one date, the one the spreading theorem speaks of |
| `Dates.SpreadsEvenlyIff` | backend/prisma/seed/national.ts:512-516 | Any spanDays consecutive indices hit every day exactly once if and only if 17 does not divide spanDays |
| `Dates.SeedSpreadsEvenly` | backend/prisma/seed/national.ts:816-820 | So they do for the seed's 520 days |
| `Batches.Chunks` | backend/prisma/seed/national.ts:443-449 | For every size, the batches concatenate to the input and are full except perhaps the last |
| `Batches.Table.CreateInBatches` | backend/prisma/seed/national.ts:451-458 | Whatever the batch size, the table is the one left by row-by-row insert-ignore on id and second key |
| `Batches.Table.AssertPersistedIds` | backend/prisma/seed/national.ts:460-477 | Succeeds if and only if every planned id is in the table; otherwise reports how many are missing |
| `Batches.InsertedAreBlocked` | backend/prisma/seed/national.ts:451-458 | After the insert every planned row is present or shadowed |
| `Batches.RerunChangesNothing` | backend/prisma/seed/national.ts:451-458 | Inserting the same rows again leaves the table as it is |
| `Batches.InsertKeepsUnique` | backend/prisma/seed/national.ts:451-458 | Both unique constraints are kept |
| `Batches.PersistedIff` | backend/prisma/seed/national.ts:451-477 | For any planned rows: an id ends up present if and only if it was there, or a row with that id came when no row held its second key |
| `Batches.PersistedIffApart` | backend/prisma/seed/national.ts:451-477 | For a row that clashes with no other planned row, this depends on the old table alone |
| `Batches.FreshSeedWritesAll` | backend/prisma/seed/national.ts:451-458 | On an empty table non-clashing rows are all written, in order |
| `Batches.StudentDates.ReconcileStudentCreatedAt` | backend/prisma/seed/national.ts:479-495 | For every list: each student of the table has the date of its last group, groups being ordered by first appearance, and otherwise its old date |
| `Batches.FirstAppearanceOrder` | backend/prisma/seed/national.ts:482-489 | The groups come in the order in which students first bring their dates |
| `Batches.LastGroupDecides` | backend/prisma/seed/national.ts:489-494 | A student planned in several groups gets the date of the last of them |
| `Batches.ReconciledIff` | backend/prisma/seed/national.ts:479-495 | Planned students end up with their planned dates and nobody else is touched, if and only if no student of the table is planned with two dates |
| `Backfill.KeyInjective` | backend/prisma/remediation/2026-08-03-backfill-student-enrollments.ts:53 | The string key separates pairs when student ids hold no colon |
| `Backfill.KeysCanCollide` | backend/prisma/remediation/2026-08-03-backfill-student-enrollments.ts:53 | With a colon allowed, two pairs can share a key |
| `Backfill.KeptIsLastInOrder` | backend/prisma/remediation/2026-08-03-backfill-student-enrollments.ts:39-55 | For every pair the kept application is its last one in the query's order |
| `Backfill.KeepsMostRecentIff` | backend/prisma/remediation/2026-08-03-backfill-student-enrollments.ts:39-55 | The most recent application is kept for all pairs if and only if no pair mixes dated and undated ones |
| `Backfill.UndatedOlderApplicationWins` | backend/prisma/remediation/2026-08-03-backfill-student-enrollments.ts:45-55 | A concrete query result where an older, undated application is kept |
| `Backfill.LastApplicationDecides` | backend/prisma/remediation/2026-08-03-backfill-student-enrollments.ts:39-122 | The whole script, pair by pair: with colon-free student ids, the last application of a pair in the query's order decides its row, and a pair without application keeps its own |
| `Backfill.AnyOrderBackfills` | backend/prisma/remediation/2026-08-03-backfill-student-enrollments.ts:57-121 | In whatever order the map is enumerated, the upserts leave the same described table, and created + skipped is the number of entries |
| `Backfill.BackfilledIsUnique` | backend/prisma/remediation/2026-08-03-backfill-student-enrollments.ts:60-121 | That description fits one table only |
| `BackfillReruns.RepeatableIff` | backend/prisma/remediation/2026-08-03-backfill-student-enrollments.ts:39-121 | For colon-free student ids: whatever the table was and whatever the queries of both runs return, a second run changes nothing, if and only if for every pair the applications last up to ties, with any current years of the school, all give the same row |
| `BackfillReruns.RepeatableWithoutChoices` | backend/prisma/remediation/2026-08-03-backfill-student-enrollments.ts:39-121 | So it is when no two applications of a pair tie and no school has two current years |
| `BackfillReruns.LeaderCanBeKept` | backend/prisma/remediation/2026-08-03-backfill-student-enrollments.ts:39-55 | Each application that is last of its pair up to ties is kept by some run |
| `BackfillReruns.TiedApplicationsCanSwap` | backend/prisma/remediation/2026-08-03-backfill-student-enrollments.ts:45-55 | Two tied applications for different programmes of one school: a second run can change the row, with one current year |
| `BackfillReruns.CurrentYearsCanSwap` | backend/prisma/remediation/2026-08-03-backfill-student-enrollments.ts:76-81 | Two current years of one school: a second run can change the row, with one application |
| `Backfill.WrittenRowsBelongToSchool` | backend/prisma/remediation/2026-08-03-backfill-student-enrollments.ts:71-120 | A changed row has a programme and a current year of its own school, and the programme named by the kept application's offer |
| `BackfillRows.RowAfterRun` | backend/prisma/remediation/2026-08-03-backfill-student-enrollments.ts:39-122 | After a run the row of a student and a school is, if the last application names a programme of that school and the school has a current year, an active first-year enrolment in that programme and year with their label; in every other case it is what it was |
| `BackfillRows.CreatedAreRebuildable` | backend/prisma/remediation/2026-08-03-backfill-student-enrollments.ts:60-121 | The entries counted as created are those whose last application can be rebuilt |
| `Backfill.OneEntryPerPair` | backend/prisma/remediation/2026-08-03-backfill-student-enrollments.ts:48-55 | The map has as many entries as there are distinct (student, school) pairs |
| `Backfill.EnrollmentTable.Backfill` | backend/prisma/remediation/2026-08-03-backfill-student-enrollments.ts:38-122 | For any answers of the unordered current-year query, the script's two loops leave the described table and the described counters |
| `PiiFormat.HexRoundTrip` | backend/prisma/remediation/2026-08-10-encrypt-plaintext-pii.ts:44-51 | Hexadecimal printing is lower-case and decodes to the bytes printed |
| `PiiFormat.FormatSplits` | backend/prisma/remediation/2026-08-10-encrypt-plaintext-pii.ts:44-51 | Splitting the printed form on ':' gives exactly three parts, which decode to IV, tag and ciphertext |
| `PiiFormat.RecognisesFormat` | backend/prisma/remediation/2026-08-10-encrypt-plaintext-pii.ts:44-62 | The recogniser accepts a printed form if and only if its ciphertext is not empty |
| `PiiFormat.RecogniserExactness` | backend/prisma/remediation/2026-08-10-encrypt-plaintext-pii.ts:53-62 | A text is a printed form if and only if it is accepted, has no upper-case digit and has even length |
| `PiiFormat.RecognisedLanguage` | backend/prisma/remediation/2026-08-10-encrypt-plaintext-pii.ts:53-62 | The recogniser accepts exactly 32 hexadecimal digits, a colon, 32 more, a colon, and at least one |
| `PiiFormat.AcceptedButNeverPrinted` | backend/prisma/remediation/2026-08-10-encrypt-plaintext-pii.ts:53-62 | A concrete accepted text that no encryption prints |
| `Remediation.EncryptedIsRecognised` | backend/prisma/remediation/2026-08-10-encrypt-plaintext-pii.ts:44-62 | What `encrypt` returns for a text is recognised if and only if the text was not empty |
| `Utf8.DecodeEncode` | backend/prisma/remediation/2026-08-10-encrypt-plaintext-pii.ts:47-48 | Reading the encrypted bytes as UTF-8 gives back the text: none is lost before encryption |
| `Remediation.RunEffect` | backend/prisma/remediation/2026-08-10-encrypt-plaintext-pii.ts:74-109 | A run, stopped anywhere, treats each field once or not at all; a complete one treats every field |
| `Remediation.RunIsDeterministic` | backend/prisma/remediation/2026-08-10-encrypt-plaintext-pii.ts:74-109 | Start tables, IVs and stopping point leave one possible result |
| `Remediation.ExactlyOnce` | backend/prisma/remediation/2026-08-10-encrypt-plaintext-pii.ts:64-109 | Over any runs, each stopped at any row and the last complete: a field in need is encrypted by exactly one write, over its original text; any other field is untouched; none needs encryption afterwards |
| `RemediationLaws.NoTextIsLost` | backend/prisma/remediation/2026-08-10-encrypt-plaintext-pii.ts:44-109 | For any cipher that can be opened: over any runs with a complete last one, a field in clear is written once and then holds a recognised value that, split, decoded and opened, gives back the original text; any other field is as it was |
| `RemediationLaws.OwnIv` | backend/prisma/remediation/2026-08-10-encrypt-plaintext-pii.ts:44-51 | A field encrypted by a run carries the IV drawn for it |
| `Remediation.NextRunWritesNothing` | backend/prisma/remediation/2026-08-10-encrypt-plaintext-pii.ts:64-109 | A further run after that changes nothing |
| `Remediation.PiiTables.EncryptPlaintextPii` | backend/prisma/remediation/2026-08-10-encrypt-plaintext-pii.ts:64-109 | One start of the script is a `RunStep`; uninterrupted, its three counters are the numbers of fields it changed |
| `StudentDirectory.StepKeepsInv` | frontend/components/school-portal/student-import-directory.tsx:133-169 | Every action, render, timer, answer and unmount keeps the invariant on effects, requests and the list |
| `StudentDirectory.OneActiveEffect` | frontend/components/school-portal/student-import-directory.tsx:133-169 | At most one effect is not cancelled: the last, which holds the current page, search and refresh key unless a render is pending |
| `StudentDirectory.OneRequestPerEffect` | frontend/components/school-portal/student-import-directory.tsx:135-146 | No effect sends two requests, and a request asks for its own effect's parameters, the search trimmed |
| `StudentDirectoryLaws.RequestsAskForTheirEffect` | frontend/components/school-portal/student-import-directory.tsx:138-146 | A request asks for its effect's page, twenty rows, and the search without surrounding white space, or no search if that is blank |
| `StudentDirectory.LatestQueryWins` | frontend/components/school-portal/student-import-directory.tsx:147-158 | An answer changes the screen only if it belongs to the last effect of a mounted screen; the effects that write the list are strictly increasing |
| `StudentDirectory.ScreenShowsNewestAnswer` | frontend/components/school-portal/student-import-directory.tsx:144-158 | The screen always shows the page of the newest effect answered with one, and the last effect's page once it is there |
| `StudentDirectoryLaws.ScreenShows` | frontend/components/school-portal/student-import-directory.tsx:149-151 | The list, total and page count on screen are those of the newest answer written, or none, 0 and 1 where it gives none |
| `StudentDirectoryLaws.AnswerOnScreen` | frontend/components/school-portal/student-import-directory.tsx:147-158 | An answer to the last effect of a mounted screen stops the spinner and shows the page it brings; any other answer changes nothing on screen |
| `StudentDirectoryLaws.RenderCatchesUp` | frontend/components/school-portal/student-import-directory.tsx:133-169 | A render runs the effect if and only if a dependency changed; it cancels the last effect and starts one with the current dependencies |
| `StudentDirectoryLaws.QuietMeansCurrent` | frontend/components/school-portal/student-import-directory.tsx:133-169 | When nothing is left to happen, the last request asked for the current page, search and refresh key, and was answered |
| `StudentDirectoryLaws.WhatActionsAsk` | frontend/components/school-portal/student-import-directory.tsx:204-348 | What page, search and refresh key each action of the user asks for, and which start the spinner |
| `StudentDirectoryLaws.RefreshAlwaysReloads` | frontend/components/school-portal/student-import-directory.tsx:220-348 | A mutation or an enrolment always leads to a new effect |
| `StudentDirectory.StepStallsIff` | frontend/components/school-portal/student-import-directory.tsx:204-208 | A step leaves a spinner nothing will stop if and only if the user asks for what is already loaded |
| `StudentDirectory.StalledStays` | frontend/components/school-portal/student-import-directory.tsx:157-169 | A stalled spinner stays until the user acts or leaves |
| `StudentDirectory.NeverStallsIff` | frontend/components/school-portal/student-import-directory.tsx:288-291 | A run never stalls if and only if the user never asks for what is already loaded |
| `StudentDirectory.ClickOnActivePage` | frontend/components/school-portal/student-import-directory.tsx:487-501 | From an idle screen, choosing a page number stalls the spinner if and only if it is the page shown |
| `StudentDirectory.StallingRun` | frontend/components/school-portal/student-import-directory.tsx:474-501 | A concrete run from the mounted screen that stalls: the first of several pages arrives, which shows the page links, then page 1 is clicked |
| `StudentDirectory.StudentImportDirectory.RunEffect` | frontend/components/school-portal/student-import-directory.tsx:133-169 | A render with changed dependencies cancels the last effect and starts one with the current ones |
| `StudentDirectory.StudentImportDirectory.ReceiveAnswer` | frontend/components/school-portal/student-import-directory.tsx:147-159 | An answer to a cancelled effect is dropped; otherwise list, totals (with defaults) and spinner are set |
| `CsvImport.RoundTripIff` | frontend/components/school-portal/student-import-directory.tsx:326-341 | For any one-line header, either line break and an optional final one: the file is read back as written if and only if no cell holds a comma, a line break or outer white space, and the header is not blank unless there is no entry |
| `CsvImport.BlankHeaderDropsFirst` | frontend/components/school-portal/student-import-directory.tsx:329-332 | With a blank header exactly the first entry is lost |
| `CsvImport.ParsePrintedLine` | frontend/components/school-portal/student-import-directory.tsx:333-338 | A line of clean cells is read back as its entry, the level as a number |
| `CsvImport.LineIsRead` | frontend/components/school-portal/student-import-directory.tsx:333-338 | How any line is read: cells are trimmed pieces, missing pieces are missing cells, a missing level is not a number and a blank one is 0 |
| `CsvImport.SplitLinesFirst` | frontend/components/school-portal/student-import-directory.tsx:331 | Splitting on `\r?\n` cuts at the first line break and loses only a carriage return before a bare `\n` |
| `Announcer.AnnouncementLaw` | frontend/components/notifications/notification-bell.tsx:44-99 | In every run an item is announced as often as the first processed response listing it does, and never if that is the first response |
| `Announcer.KnownIdsAreTheUnion` | frontend/components/notifications/notification-bell.tsx:61-69 | The known ids are the union of the processed responses, and unset exactly before the first |
| `AnnouncerLaws.PopUpsInOrder` | frontend/components/notifications/notification-bell.tsx:57-97 | The pop-ups are exactly the items of later responses whose id no earlier response brought, each with its title and body, in order of arrival |
| `AnnouncerLaws.KnownIdsAndBadge` | frontend/components/notifications/notification-bell.tsx:57-65 | Known are the ids brought so far; the badge is the total of the last response, or 0 |
| `Announcer.AnnouncedExactlyOnce` | frontend/components/notifications/notification-bell.tsx:61-69 | With ids unique per response: announced once if it appears after and not in the first response, otherwise never |
| `Announcer.AnnouncedAtMostOnceIff` | frontend/components/notifications/notification-bell.tsx:67-69 | An item is never announced twice if and only if the later response that brings it in lists it once |
| `Announcer.BadgeIsLastArrived` | frontend/components/notifications/notification-bell.tsx:57-59 | The badge shows the total of the response that arrived last |
| `Announcer.NewestIsGreatest` | frontend/components/notifications/notification-bell.tsx:53-59 | The newest answer is the answered poll sent last |
| `Announcer.BadgeIsRightIff` | frontend/components/notifications/notification-bell.tsx:53-59 | In every run the badge shows the newest answer's total at all times if and only if every late answer happens to carry that total |
| `Announcer.AlwaysRightIff` | frontend/components/notifications/notification-bell.tsx:53-59 | A schedule keeps the badge right for all responses if and only if polls are answered in the order in which they were sent |
| `Announcer.BadgeCanGoBack` | frontend/components/notifications/notification-bell.tsx:53-59 | Two overlapping polls answered in reverse leave the older total, wrong whenever the totals differ |
| `Announcer.NotificationBell.ReceiveResponse` | frontend/components/notifications/notification-bell.tsx:57-97 | The first response sets the known ids; later ones announce the unseen items in order and add their ids one by one |

## Left out

- Prisma, PostgreSQL, HTTP, axios, React rendering and toasts: tables are maps or sequences, the network and the scheduler are the events of a machine, toasts and redirects are entries of a log.
- AES-256-GCM, SHA-256 and random number generation: GCM is any length-preserving function that can be opened, and each run is given its own IVs. Texts are sequences of Unicode scalar values, so lone surrogates are not modelled.
- `stableId`: identifiers are a free datatype, so distinct kinds and values have distinct identifiers; the truncated hash itself is not modelled.
- Timetable.TeacherTimetable.BookTeacherSlot: takes times of the form `dd:dd` only; every call in the script passes such a literal, and what `toMinutes` makes of other texts is not modelled.
- Backfill.EnrollmentTable.Backfill: UUIDs of written rows, warnings and changes to the tables between two runs are left out.
- Population.EnrollStudents: the lookup error of `national.ts:804`, which the construction of the programmes rules out, is not modelled.
- Batches.Table.CreateInBatches: a table has one secondary unique key; concurrent writers are not modelled.
- CsvImport.ParsePrintedLine: `Number(cell)` is modelled on absent, empty and all-digit cells and left open elsewhere; levels are mathematical naturals, without the rounding of doubles.
- Remediation.PiiTables.EncryptPlaintextPii: `loadKey`, console output and writers other than the script are left out; an interruption falls between two rows, since a row is one update.
- StudentDirectory.ClickOnActivePage: the page numbers offered by the pagination are not modelled, any number may be chosen.
- Announcer.NotificationBell.ReceiveResponse: one mounted bell, with the dropdown list, marking as read and unmounting left out.
- The demo rows of both seeds, `identity`, course codes, rooms and schedules: data without a property.
- The address remediation of 2026-08-11, a single loop with the same helpers as the script modelled here, and the linking script of 2026-08-03, mostly lookup tables.
- Role redirects, CSRF and origin checks, navigation, schedule board filters and charts: one-branch logic.
- The server-side scheduler, payments, applications and `EncryptionService`: not part of this model.
