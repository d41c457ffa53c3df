# daulingo growth-state engine in Dafny

This project models the core of daulingo, a daily-active-user growth
accounting engine. It covers four parts:

- **Ingest.** Activity events are read from CSV files in chunks. For each
  user, the `dim_user` registry keeps the earliest date the user was seen.
  Every event is appended to the `fact_activity` log.
- **Classification.** Each user is put in one of seven growth states on each
  day. The states are NEW, CURRENT, REACTIVATED, RESURRECTED, AT_RISK_WAU,
  AT_RISK_MAU and DORMANT. The state comes from the user's activity on that
  day, in the week before and in the month before.
- **Window recompute.** For a date window, the engine computes one row per
  eligible user and day. A first pass classifies. A second pass carries a
  rolling last-active pointer through each user's rows. The window's rows
  in `user_state_daily` are then deleted and the new rows inserted.
- **Front ends.** There are three: the backend `UserStateService`, the
  `daulingo` package's `compute`, and the stand-alone script that
  recomputes the year up to the latest activity.

Dates are day numbers: day 0 is 1970-01-01, a Thursday. Each database table
is a value held by a repository object, which the model writes as a class:

| table | model |
|---|---|
| `dim_user` | `map<UserId, Date>` |
| `user_state_daily` | `map<Key, StateRecord>`, keyed by (as_of_date, user_id) |
| `fact_activity` | `seq<Event>` |

The repositories, the services and the fill over the row list change
state, so they are methods with `modifies` clauses. The first pass, the
classifier and the CSV readers are loops, so they are methods too. Each
method is proved against a specification function. The properties of those
functions are proved as lemmas:

- The classifier's full decision table, and its weekend folding.
- The rolling pointer equals a backward search for the latest active day.
- The window holds exactly one row per (day, user) from the user's
  first-seen date on. No row's key repeats. The window is recomputed
  idempotently.
- Each user's first-seen date is the earliest event date, whatever the
  chunking.
- Slicing into batches and buffering to `chunk_size` cut the same batches.

The classifier the engine calls is a parameter, of type `Window.Classifier`:

- The `daulingo` front end uses `Service.WeekendFolding()`, which models
  src/daulingo/classifier.py.
- The script uses `Service.Plain()`, which models the script's own
  `classify_state`.
- The backend service imports `backend.services.classifier`, which is not
  part of this model.

## Model

| member | source | states |
|---|---|---|
| Dates.DateRange | src/backend/utils.py:6-12 | yields each day from start to end once, ascending, and nothing when start > end |
| Tables.Name | src/daulingo/tables.py:26-34 | every state is stored under one of the seven enum names |
| Tables.FromName | src/daulingo/tables.py:26-35 | the enum column accepts exactly the seven names |
| Tables.NameRoundTrip | src/daulingo/tables.py:26-35 | storing a state and reading it back gives it back, and reading a name and storing it gives the name back |
| Tables.SevenDistinctStates | src/daulingo/tables.py:26-34 | there are seven names, pairwise distinct, and distinct states have distinct names |
| Tables.AsTableKeys | src/daulingo/tables.py:59-77 | the keys of stored rows are exactly the (as_of_date, user_id) pairs of the rows |
| Tables.AsTableRows | src/daulingo/tables.py:59-77 | with distinct keys every row is stored unchanged under its key and the table has one entry per row |
| Tables.KeysOf | src/backend/services/user_state_service.py:41 | `list(d.keys())` holds each key of the dictionary exactly once and nothing else |
| Classifier.AnyInWindow | src/daulingo/classifier.py:52-62 | true iff some active date lies in [start, end]; false for an inverted range |
| Classifier.NormalizeWeekends | src/daulingo/classifier.py:18-25 | the loop builds exactly the set of active dates with Saturdays and Sundays moved to their Friday |
| Classifier.ClassifyState | src/daulingo/classifier.py:5-49 | the method computes `Classify`: error before first_seen, else the decision tree over the (folded) dates |
| Classifier.ClassifyFailsIffBeforeFirstSeen | src/daulingo/classifier.py:15-16 | the classifier raises exactly when as_of is before first_seen, and otherwise returns the decision-tree state |
| Classifier.DecisionTable | src/daulingo/classifier.py:27-49 | each of the seven states holds iff its row of the decision table holds, and a state is an active one iff the user is active that day |
| Classifier.NormalizedHasNoWeekend | src/daulingo/classifier.py:18-25 | no folded date is a Saturday or a Sunday |
| Classifier.FoldedMembership | src/daulingo/classifier.py:18-25 | a weekday other than Friday is folded-active iff it is active; a Friday iff it or the weekend after it is active; a weekend day never |
| Classifier.WeekendIsNeverActive | src/daulingo/classifier.py:18-35 | with folding, a Saturday or Sunday is always AT_RISK_WAU, AT_RISK_MAU or DORMANT |
| Classifier.FridaySeesFollowingWeekend | src/daulingo/classifier.py:18-35 | with folding, a Friday is an active state iff the Friday, Saturday or Sunday is active |
| Classifier.NewOnFirstActiveDay | scripts/2_compute_user_state_daily.py:69-104 | a user active on their first-seen day is NEW that day (with folding, when that day is a weekday) |
| Classifier.OnlyLast30DaysMatter | src/daulingo/classifier.py:27-33 | the state depends only on the (folded) active dates of [as_of-30, as_of] |
| Classifier.LookbackOf30DaysSuffices | scripts/2_compute_user_state_daily.py:110-127 | reading activity from 30 days before the window start gives every day of the window the state of the full history |
| Classifier.LookbackOf30DaysSufficesFolded | src/daulingo/classifier.py:18-25 | with weekend folding, reads from 30 days before the window start to 2 days after its end give every day of the window the state of the full history |
| Classifier.FoldedReadsToEndMissWeekend | src/daulingo/compute_user_state_daily.py:170-187 | with weekend folding, reads that stop at the window end give a Friday at the end, active only on the following weekend, an inactive state where the full history gives an active one |
| Chunking.ChunksIsChunking | src/backend/repositories/user_state_daily_repo.py:33-34 | the `range(0, len, n)` slices are non-empty, all full but the last, and concatenate to the input |
| Chunking.ChunkingIsUnique | src/daulingo/io.py:40-46 | any such batching of a sequence is the slicing one, so flushing a buffer at `chunk_size` and slicing cut the same batches |
| Chunking.SliceStep | src/backend/repositories/user_state_daily_repo.py:33-39 | taking the next slice keeps the slices a full-batch cut of a prefix |
| Chunking.SliceDone | src/backend/repositories/user_state_daily_repo.py:33-39 | when the slicing loop ends, the slices are a batching of all rows |
| FactActivity.ActiveDaysMembership | src/backend/repositories/fact_activity_repo.py:24-51 | a date is an active day of the user in [lo, hi] iff the user has an event on it |
| FactActivity.LastBeforeIsLatest | src/backend/repositories/fact_activity_repo.py:53-76 | None iff the user has no event before start, else the latest such event date |
| FactActivity.LatestDayIsMax | src/backend/repositories/fact_activity_repo.py:86-98 | None iff the log is empty, else an event date no earlier than any other |
| FactActivity.FactActivityRepo.ActiveDatesByUser | src/backend/repositories/fact_activity_repo.py:17-51 | every requested user, and no other, mapped to the distinct event dates in [read_from, window_end] |
| FactActivity.FactActivityRepo.LastActiveBeforeStart | src/backend/repositories/fact_activity_repo.py:53-76 | every requested user, and no other, mapped to the latest event date before window_start, or None |
| FactActivity.FactActivityRepo.BulkInsert | src/backend/repositories/fact_activity_repo.py:78-84 | appends the rows to the log and returns their number |
| FactActivity.FactActivityRepo.GetMinMaxDates | src/backend/repositories/fact_activity_repo.py:86-98 | fails iff the log is empty; else the least and the greatest event date, both attained |
| DimUser.RowsTableHoldsRows | src/backend/repositories/dim_user_repo.py:36-42 | rows with distinct users become exactly their users' entries with their dates |
| DimUser.InsertStep | src/backend/repositories/dim_user_repo.py:36-42 | a row is accepted iff its user is neither registered nor earlier in the batch, and one refused row refuses the batch |
| DimUser.ApplyUpdatesEffect | src/backend/repositories/dim_user_repo.py:44-62 | updates add or remove no user and leave each user with the date of the last row naming it, or its old date |
| DimUser.DimUserRepo.UsersOnOrBefore | src/backend/repositories/dim_user_repo.py:16-23 | exactly the users first seen on or before window_end, with their dates |
| DimUser.DimUserRepo.FirstSeenFor | src/backend/repositories/dim_user_repo.py:25-34 | exactly the registered users among the ids, with their dates |
| DimUser.DimUserRepo.InsertUsers | src/backend/repositories/dim_user_repo.py:36-42 | all rows inserted and their number returned when the primary key accepts them, else an error and nothing inserted |
| DimUser.DimUserRepo.UpdateFirstSeen | src/backend/repositories/dim_user_repo.py:44-62 | the registry after the row-by-row UPDATEs, and the number of rows |
| StateTable.InsertableSplit | src/backend/repositories/user_state_daily_repo.py:30-40 | inserting a + b at once succeeds iff inserting a, then b after it, succeeds |
| StateTable.InsertablePrefix | src/backend/repositories/user_state_daily_repo.py:30-40 | every prefix of an insertable batch is insertable |
| StateTable.InsertSliceStep | src/backend/repositories/user_state_daily_repo.py:33-39 | inserting slice by slice stores what inserting the prefix at once stores, and a refused prefix refuses the whole batch |
| StateTable.InsertKeepsValid | src/daulingo/tables.py:73-76 | a successful insert of rows meeting `last_active_le_as_of` keeps the table meeting it |
| StateTable.AsTableAppend | src/backend/repositories/user_state_daily_repo.py:33-39 | storing a + b row by row stores a, then b over it |
| StateTable.ReplaceIsWindowed | src/backend/services/user_state_service.py:82-88 | delete-then-insert keeps every row outside [start, end] and holds exactly the new rows inside |
| StateTable.ReplaceIsIdempotent | src/backend/services/user_state_service.py:82-88 | replacing the same window with the same rows twice is replacing it once |
| StateTable.UserStateDailyRepo.DeleteRange | src/backend/repositories/user_state_daily_repo.py:17-28 | removes exactly the rows dated in [start, end]; returns their number when the driver reports it, else 0 |
| StateTable.UserStateDailyRepo.InsertChunk | src/backend/repositories/user_state_daily_repo.py:37-38 | one INSERT stores all of the chunk when no key collides, and nothing otherwise |
| StateTable.UserStateDailyRepo.BulkInsert | src/backend/repositories/user_state_daily_repo.py:30-40 | chunk size 0 is an error, negative inserts nothing; otherwise all rows in `chunk_size` batches, or an error at the first slice that conflicts with the table left by the full slices committed before it, which stay stored |
| StateTable.UserStateDailyRepo.InsertSlices | src/backend/repositories/user_state_daily_repo.py:33-39 | the slicing loop commits a prefix of the rows, all of them iff the batch is insertable; on failure that prefix is made of full slices and the next slice is the one that conflicts with the table they left |
| StateTable.UserStateDailyRepo.GetMinMaxDates | src/backend/repositories/user_state_daily_repo.py:42-50 | the least and greatest stored as_of_date, both attained, or today twice for an empty table |
| Window.FirstPass | src/backend/services/user_state_service.py:53-72 | the nested day-by-user loop builds `WindowRows` |
| Window.DayRowsSound | src/backend/services/user_state_service.py:56-72 | every row of a day is that day's classified row of a user first seen by then |
| Window.DayRowsComplete | src/backend/services/user_state_service.py:56-59 | every user first seen by the day has a row that day |
| Window.DayRowsDistinct | src/backend/services/user_state_service.py:56-72 | with distinct user ids, no user has two rows on one day |
| Window.DayRowsContent | src/backend/services/user_state_service.py:56-72 | one day's rows are sound, complete and, for distinct ids, one per user |
| Window.WindowRowsSound | src/backend/services/user_state_service.py:53-72 | every row is the classified row, with no last-active date, of a (day, user) pair of the window with the day on or after first_seen |
| Window.WindowRowComplete | src/backend/services/user_state_service.py:53-72 | a given (day, user) pair of the window on or after first_seen has its row |
| Window.WindowRowsComplete | src/backend/services/user_state_service.py:53-72 | every (day, user) pair of the window on or after first_seen has its row |
| Window.WindowRowsContent | src/backend/services/user_state_service.py:53-72 | the window's rows are exactly the classified rows of the eligible (day, user) pairs |
| Window.AppendLaterDay | src/backend/services/user_state_service.py:55 | rows ordered by date stay ordered when a later day's rows follow |
| Window.AppendDistinctDay | src/backend/services/user_state_service.py:55-56 | keys stay distinct when a later day's rows, one per user, follow |
| Window.WindowRowsDates | src/backend/services/user_state_service.py:55 | every row falls on a day of the window |
| Window.DayRowsDates | src/backend/services/user_state_service.py:56-72 | every row of a day carries that day, and with distinct ids names distinct users |
| Window.WindowRowsOrderedAndDistinct | src/backend/services/user_state_service.py:53-72 | rows come day by day, and with distinct ids no (day, user) key repeats |
| Window.DayRowsCount | src/backend/services/user_state_service.py:56-59 | one day has one row per user first seen by then |
| Window.ExpectedCountStep | src/backend/services/user_state_service.py:55-59 | extending the window by a day adds the users first seen by that day |
| Window.ExpectedCountEmpty | src/backend/services/user_state_service.py:55 | an empty window expects no row |
| Window.WindowRowsCount | src/backend/services/user_state_service.py:53-72 | the first pass emits, per user, one row per window day on or after first_seen |
| LastActive.LatestInIsLatest | src/backend/utils.py:26-42 | the backward search finds nothing iff no date of the set lies in [lo, d], else the latest one there |
| LastActive.LatestInAgree | src/backend/utils.py:36-42 | sets that agree on [lo, d] have the same latest date there |
| LastActive.LatestInGap | src/backend/utils.py:36-42 | with no date in (m, d], the latest date up to d is the latest up to m |
| LastActive.ActiveAmongSnoc | src/backend/utils.py:39-40 | one more date adds it to the active dates seen iff it is active |
| LastActive.RollIsLatest | src/backend/utils.py:30-42 | over ascending dates, the rolling pointer is the latest active date from first_seen to the last date, else the seed |
| LastActive.RollSingle | src/backend/utils.py:36-42 | the pointer after one date is the backward search over that date, else the seed |
| LastActive.RollStep | src/backend/utils.py:36-42 | one more ascending date keeps the pointer equal to the backward search |
| LastActive.InsertByDateElems | src/backend/utils.py:31 | inserting into a group adds exactly that index |
| LastActive.InsertByDateSorted | src/backend/utils.py:31 | inserting into a date-sorted group keeps it sorted |
| LastActive.InsertByDateDistinct | src/backend/utils.py:31 | inserting a new index keeps the group free of repeats |
| LastActive.SortByDateSpec | src/backend/utils.py:31 | sorting a user's rows by as_of_date puts them in date order and keeps exactly the same rows |
| LastActive.IndicesOfContent | src/backend/utils.py:26-28 | a user's group holds exactly the indices of that user's rows, each once |
| LastActive.IndicesOfAbsent | src/backend/utils.py:26-28 | a user without rows has an empty group |
| LastActive.IndicesOfSnoc | src/backend/utils.py:27-28 | one more row extends its own user's group by its index and no other group |
| LastActive.UsersInSnoc | src/backend/utils.py:27-28 | one more row adds its user to the users seen |
| LastActive.GroupedNewUser | src/backend/utils.py:27-28 | a row of a new user opens that user's group, in order of first appearance |
| LastActive.GroupedSeenUser | src/backend/utils.py:27-28 | a row of a known user extends that user's group |
| LastActive.FirstAppearancesSnoc | src/backend/utils.py:26-28 | a row of a new user appends that user to the key order; a row of a known user leaves it |
| LastActive.FirstAppearancesContent | src/backend/utils.py:26-28 | the key order of the first `i` rows holds exactly their users, each once |
| LastActive.FirstAppearancesPrefix | src/backend/utils.py:26-30 | for every `i`, the users of the first `i` rows come first in the key order of all rows, in their own order |
| LastActive.GroupByUser | src/backend/utils.py:26-28 | `rows_by_user`: the users in order of first appearance (`FirstAppearances`), each once, each with exactly the indices of its rows in row order |
| LastActive.StepAgrees | src/backend/utils.py:36-42 | one turn of the pointer loop over a sorted group agrees with the backward search over the user's rows so far |
| LastActive.ProgressStep | src/backend/utils.py:42 | writing one row moves the rows one step towards their filled form |
| LastActive.ProgressGroupDone | src/backend/utils.py:30-42 | once all rows of a user are written, the user is done |
| LastActive.DatesOfSnoc | src/backend/utils.py:36-37 | one more index adds its row's date |
| LastActive.RollSnoc | src/backend/utils.py:36-42 | one more date moves the pointer to it iff it is active and not before first_seen |
| LastActive.FillStep | src/backend/utils.py:36-42 | the value the loop writes into a row is that row's filled last-active date |
| LastActive.ProgressIsPartial | src/backend/utils.py:30-42 | part-way through the fill, every row is untouched or filled |
| LastActive.ProgressComplete | src/backend/utils.py:30-42 | with every user done and known, the rows are exactly the filled rows |
| LastActive.FillGroup | src/backend/utils.py:30-42 | the pointer loop over one user's sorted rows fills exactly that user's rows |
| LastActive.FillUsers | src/backend/utils.py:30-42 | users are filled in order of first appearance until one is missing from `users_first_seen`; then the users filled are exactly those before it in that order, all known |
| LastActive.FillLastActive | src/backend/utils.py:15-42 | succeeds iff every row's user has a first-seen date and then leaves exactly the filled rows; otherwise fails naming the first user, in order of first appearance, without a first-seen date, with exactly the rows of the users before it filled and all others untouched |
| LastActive.FilledRowMeaning | src/backend/utils.py:36-42 | only last_active_date changes: before first_seen it is kept; else it is the latest active row date of the user from first_seen to the row's day, else the seed |
| LastActive.FilledIsMonotone | src/backend/utils.py:36-42 | with seeds before the rows, a user's last-active date never goes back as the date advances |
| LastActive.FilledMeetsCheck | src/daulingo/tables.py:73-76 | with seeds before the rows, filled rows meet `last_active_date <= as_of_date` |
| Service.WindowActiveAgree | src/backend/services/user_state_service.py:44-80 | on [first_seen, d], a user's active row dates are the user's active dates from the window start on |
| Service.RecomputedRow | src/backend/services/user_state_service.py:53-80 | each filled row is stored under a window key with the expected state and last-active date |
| Service.ExpectedKeyHasRow | src/backend/services/user_state_service.py:53-72 | every expected key is the key of a first-pass row |
| Service.RecomputedTable | src/backend/services/user_state_service.py:53-80 | the two passes give, with the users in any order, exactly the expected table, one row per key |
| Service.TableOfRows | src/backend/services/user_state_service.py:88 | rows with distinct keys that cover a table, each stored under its key, store that table |
| Service.RecomputedRowsInsertable | src/backend/services/user_state_service.py:82-88 | once the window is deleted, the new rows insert without a key collision and meet the check constraint |
| Service.SeedsLieBeforeStart | src/backend/repositories/fact_activity_repo.py:53-76 | every seed lies before the window start |
| Service.RecomputeIsIdempotent | src/backend/services/user_state_service.py:82-88 | recomputing the same window twice leaves the table as the first recompute left it |
| Service.StoresGiveExpected | src/backend/services/user_state_service.py:33-51 | the loaders' maps are the registry's and the log's view of the eligible users, and their seeds lie before the window |
| Service.TwoPasses | src/backend/services/user_state_service.py:53-80 | the first pass and the fill store exactly the expected table, one row per eligible (day, user) |
| Service.UserStateService.Compute | src/backend/services/user_state_service.py:26-90 | start > end raises with nothing changed; no eligible user returns 0 with nothing changed; else the window is replaced by the expected rows and their number returned |
| Service.EngineNeverRaises | src/backend/services/user_state_service.py:57-64 | every row's state is what the source classifier returns without raising |
| Service.ComputeOn | src/daulingo/compute_user_state_daily.py:166-226 | the same replace semantics on the tables of one connection |
| Service.NonEmptyWindowHasRows | src/backend/services/user_state_service.py:36-40 | a window with an eligible user gets at least one row |
| Service.ComputeDaily | src/daulingo/compute_user_state_daily.py:163-226 | the window is recomputed with the weekend-folding classifier; returns 0 only with nobody to compute, and otherwise falls off its end |
| Service.ScriptWindow | scripts/2_compute_user_state_daily.py:110-127 | no activity ends the script; else the window is the 366 days ending on the latest activity date, read from 30 days before |
| Service.ScriptMain | scripts/2_compute_user_state_daily.py:308-385 | an empty log fails with nothing changed; else the year up to the latest activity is recomputed with the plain classifier and 0 is returned |
| Service.RecomputeYear | scripts/2_compute_user_state_daily.py:315-383 | the script's one transaction recomputes the given year with the plain classifier |
| Ingest.MinDatesIsEarliest | src/backend/services/ingest_activity.py:28-34 | `chunk_min_date` holds exactly the chunk's users, each with its earliest event date |
| Ingest.ChunkMinDates | src/backend/services/ingest_activity.py:28-34 | the loop builds `MinDates` of the events |
| Ingest.Merge | scripts/1_upload_data.py:10-11 | merged registries hold every user of either, with the earlier of its dates |
| Ingest.MergeLower | src/backend/services/ingest_activity.py:30-34 | one lowering step after a merge is a merge with the lowered map |
| Ingest.MinDatesOfConcat | scripts/1_upload_data.py:10-11 | the minima of two runs of events merge into the minima of both, so the chunk boundaries do not matter |
| Ingest.MergeAssociative | scripts/1_upload_data.py:174-186 | merging chunk after chunk is merging them all at once |
| Ingest.SplitLast | src/backend/services/ingest_activity.py:52-60 | a non-empty id list holds the ids before its last and its last |
| Ingest.InsertRowsMembers | src/backend/services/ingest_activity.py:56-60 | `to_insert` holds, for each id not yet registered, the row with its chunk minimum, and nothing else |
| Ingest.InsertRowsDistinct | src/backend/services/ingest_activity.py:56-60 | with distinct ids, `to_insert` names no user twice |
| Ingest.InsertRowsCount | src/backend/services/ingest_activity.py:56-60 | `to_insert` has one row per unregistered id |
| Ingest.UpdateRowsLast | src/backend/services/ingest_activity.py:61-65 | the last `to_update` row for a user carries its chunk minimum iff that is strictly earlier, and none exists otherwise |
| Ingest.UpdateRowsCount | src/backend/services/ingest_activity.py:61-65 | `to_update` has one row per registered id whose chunk minimum is strictly earlier |
| Ingest.InsertRowsFresh | src/backend/services/ingest_activity.py:56-67 | the primary key accepts `to_insert` |
| Ingest.InsertRowsAdded | src/backend/services/ingest_activity.py:56-67 | the insert adds exactly the chunk's new users, with their chunk minima |
| Ingest.InsertedTable | src/backend/services/ingest_activity.py:56-67 | after the insert the registry keeps its entries and gains the new users with their chunk minima |
| Ingest.EnsureEffect | src/backend/services/ingest_activity.py:47-69 | inserting, then updating, leaves the registry merged with the chunk minima |
| Ingest.UpdatesLower | src/backend/services/ingest_activity.py:61-68 | updates naming exactly the lowered users turn the grown registry into the merge |
| Ingest.EnsureCounts | src/backend/services/ingest_activity.py:47-69 | the two counts are the numbers of new and of lowered users |
| Ingest.FirstSeenNeverLater | src/backend/services/ingest_activity.py:10-14 | nobody's first-seen date moves later; a user neither new nor lowered keeps its date; a new user gets its chunk minimum |
| Ingest.RegisteredByEarliestEvent | src/backend/services/ingest_activity.py:10-14 | after ingest every user with an event is registered on or before each of its event dates, and a new user on one of them |
| Ingest.NewUsersAdd | scripts/1_upload_data.py:186-188 | the new-user counts of consecutive chunks add up to the count over both |
| Ingest.ActivityIngestService.EnsureDimUsers | src/backend/services/ingest_activity.py:47-69 | the registry becomes the merge with the chunk minima; returns the numbers of new and of lowered users |
| Ingest.ActivityIngestService.Ingest | src/backend/services/ingest_activity.py:23-45 | registry merged with the chunk minima, events appended, and the three counts returned |
| Ingest.IngestChunk | src/daulingo/ingest_activity.py:13-30 | the same effect and counts on the tables of one connection |
| Ingest.UploadChunks | scripts/1_upload_data.py:173-199 | after all chunks every user's first-seen date is the merge with its earliest date over the whole file, all events appended, and the inserted-user total is the number of users new to the registry |
| Ingest.UploadFile | scripts/1_upload_data.py:161-208 | a reader error rolls back the one transaction, so neither table keeps any chunk and the error is raised; without one, every chunk is ingested as by `UploadChunks` |
| CsvReader.LeadingSpaces | scripts/1_upload_data.py:36 | the number of whitespace characters `s` starts with, no more and no fewer |
| CsvReader.TrailingSpaces | scripts/1_upload_data.py:36 | the number of whitespace characters `s` ends with, no more and no fewer |
| CsvReader.StripEnds | scripts/1_upload_data.py:36 | what `strip()` keeps starts and ends with a non-space |
| CsvReader.StripIsSlice | scripts/1_upload_data.py:36 | what `strip()` keeps is a slice of the text with only whitespace cut at either end |
| CsvReader.StripIsIdempotent | scripts/1_upload_data.py:36 | stripping twice is stripping once |
| CsvReader.Normalized | scripts/1_upload_data.py:39-40 | a trailing `Z` becomes `+00:00`, and nothing else changes |
| CsvReader.NormalizedIsIdempotent | scripts/1_upload_data.py:39-40 | normalising leaves no trailing `Z`, so doing it again changes nothing |
| CsvReader.Aware | scripts/1_upload_data.py:45-49 | a stamp without an offset is read as UTC, and one with an offset is kept |
| CsvReader.ParseIsoTs | scripts/1_upload_data.py:30-50 | blank text fails as empty; else invalid iff `fromisoformat` rejects the normalised text; a success is always offset-aware |
| CsvReader.ParseIgnoresOuterSpace | scripts/1_upload_data.py:36 | parsing stripped text is parsing the text |
| CsvReader.FirstDot | src/daulingo/io.py:15 | the index of the first `.` or None when there is none |
| CsvReader.ValidUserIdIsShape | src/daulingo/io.py:11-16 | the user_id check accepts exactly 1 to 64 characters of letters, one dot, letters |
| CsvReader.ValidUserIdIsStripped | src/daulingo/io.py:11-16 | a valid user_id has no surrounding whitespace |
| CsvReader.AcceptedSnoc | src/backend/services/io.py:24-34 | one more row adds its value iff it was accepted |
| CsvReader.AcceptedAll | src/backend/services/io.py:24-34 | with no row refused, nothing is dropped |
| CsvReader.BatchSize | scripts/1_upload_data.py:79 | the effective batch size is positive, and `chunk_size` itself when that is positive |
| CsvReader.BufferRows | src/backend/services/io.py:24-37 | the buffer loop yields full batches of accepted rows until the end, or until the first refused row under `raise_on_invalid` |
| CsvReader.Buffer | src/backend/services/io.py:20-40 | without error the batches cut the accepted rows; an error occurs iff `raise_on_invalid` and a row is refused, and names the first one with its line number |
| CsvReader.ParseRow | scripts/1_upload_data.py:69-76 | an empty stripped user_id fails; else the stripped id with the parsed timestamp, or the timestamp's error |
| CsvReader.ParsedRows | scripts/1_upload_data.py:68-76 | one parse result per row |
| CsvReader.ReadStrict | scripts/1_upload_data.py:53-83 | a header without both columns fails first; else batches of the parsed rows, stopping at the first bad row with its line number |
| CsvReader.ValidateEvent | src/daulingo/io.py:10-17 | a row validates iff its user_id has the declared shape and its occurred_at validates |
| CsvReader.ValidatedRows | src/daulingo/io.py:32-38 | one validation result per row |
| CsvReader.ReadSkippingInvalid | src/daulingo/io.py:20-46 | `chunk_size <= 0` fails; else batches of exactly the valid rows, skipping the invalid ones |
| CsvReader.CheckedRows | src/backend/services/io.py:24-32 | each row accepted iff the validator accepts it, with the validator's value |
| CsvReader.ReadActivities | src/backend/services/io.py:11-40 | `chunk_size <= 0` fails; else batches of the accepted rows, with an error iff `raise_on_invalid` and some row is refused |

## Left out

- Transactions, connections and engines are not modelled as such. Each repository call commits or fails as a unit. The front ends that run everything on one connection get the same effect because their inserts are proved never to collide. The exception is the upload script, whose one transaction a reader error rolls back: `Ingest.UploadFile` models that rollback by restoring both tables, and `Ingest.UploadChunks` models the chunk loop of a read without error.
- `occurred_at` timestamps are collapsed to calendar dates before the model sees them: SQL `DATE()`, `ts.date()` and `max_ts.date()`. `datetime.fromisoformat` and the pydantic datetime validation are parameters (`IsoParser`, `DateTimeValidator`), because they are library code.
- Logging is left out, and so are the configuration module, engine creation, `Path.exists` and the `SystemExit` on a missing CSV.
- CSV parsing itself (`csv.DictReader`) is left out: a reader receives the header and the rows as dictionaries.
- The backend `classify_state` (`backend.services.classifier`) and the backend `Activity` model are not part of this model. The service takes the classifier as a parameter, and `ReadActivities` takes the validator as a parameter.
- `compute_states_for_window` in scripts/2_compute_user_state_daily.py is never called, so it is not modelled.
- `fetch_timeseries` (pandas) and src/backend/repositories/user_states.py are not part of this model.
- Dictionary iteration order is left open: `KeysOf` returns the keys in some order. Every result that depends on order is proved for any order.
- Python generators are modelled as the list of chunks they yield before stopping, together with the error that stops them.
- The pydantic `Field` constraints are modelled by their meaning, not by a regex engine: 1 to 64 characters, letters, one dot, letters.
- The script's window end comes from `max(occurred_at)` truncated to a date. The model takes the latest event date, which is the same value once timestamps are dates.
- StateTable.UserStateDailyRepo.DeleteRange: the driver's `rowcount` cannot be known, so the model takes a parameter. The count returned is exact when the parameter says the count is reported, and 0 otherwise.
- LastActive.FillLastActive: `list.sort` is modelled as a stable insertion sort on each user's row indices. The fill relies only on the sort's result, so in-place sorting of the row dictionaries is not modelled.
- Service.UserStateService.Compute: the number of deleted rows is logged only, so the model discards it.
- Service.ComputeDaily: falling off the end of the function is modelled as returning `None`.
- Service.ComputeDaily: activity is read up to the window end, as in the source, so its contract does not claim the state of the full history. With weekend folding the two differ on a Friday that ends the window (`Classifier.FoldedReadsToEndMissWeekend`); reads up to two days past the end would close the gap (`Classifier.LookbackOf30DaysSufficesFolded`).
