# Petra core, modelled in Dafny

Petra is an Android app for keeping track of pets and their activities, such as
grooming, vet visits and vaccines; an activity's type is free text. This project models its core: the view-model that mediates
every change and schedules reminders, the Room tables behind `PetDao` and
`PetActivityDao`, the pet record's date logic, and two computations on the
profile screen.

| file | module | what it models |
|---|---|---|
| `wrappers.dfy` | `Wrappers` | `Option` and `Result` |
| `calendar.dfy` | `Calendar` | the proleptic Gregorian calendar of `java.time`: `LocalDate` with `toEpochDay` and `ofEpochDay`, `LocalDateTime` as a date plus a nanosecond of the day, `minusMinutes`, `minusDays`, `Duration.between(..).toMillis()` |
| `text.dfy` | `Text` | `isBlank`, decimal numerals, zero-padded fields |
| `pet.dfy` | `PetRecord` | the `Pet` row, `getAge` (`Period.between(..).years`) and `getFormattedDate` (`MM/dd/yy`) |
| `activity.dfy` | `ActivityRecord` | the `PetActivity` row and the "latest first" order |
| `store.dfy` | `PetStore` | the two tables as a class `PetDatabase`: AUTOINCREMENT ids, the foreign key from activities to pets with `ON DELETE CASCADE`, the filter-and-sort query |
| `profile.dfy` | `Profile` | the current-pet lookup and the month grouping of the activity list |
| `reminders.dfy` | `Reminders` | the reminder payload, the `dd.MM.yyyy HH:mm` time and the delays of the three work requests |
| `viewmodel.dfy` | `ViewModel` | `PetViewModel` as a class owning the database, the selected pet, the set of image files and the work queue |

Each view-model operation runs its background coroutine to completion, one
operation at a time. The following become parameters:
- the clock (`LocalDate.now()`, and the two `LocalDateTime.now()` readings of `scheduleNotification`);
- the outcome of copying a picked image, which is a fresh path or `None` when the copy failed.

Room semantics the model follows:
- `autoGenerate` ids are AUTOINCREMENT: an id of 0 gets one more than the largest id the table ever held, so ids are never reused.
- An `@Insert` with an id already in the table, or with a `petId` that is no pet, is refused. The refusal is a `ConstraintViolation` result that leaves the tables unchanged.
- `@Update` and `@Delete` act on the row with the record's primary key. A missing row means no change.

Where the source is inconsistent, the model follows the code as written:
- `PetViewModel` calls `petDao.getPetById`, which `PetDao.kt` does not declare. The model reads it as a point lookup by primary key.
- No `TypeConverter` for `LocalDateTime` is part of this model. `ORDER BY dateTime DESC` is read as chronological order.

## Model

| member | source | states |
|---|---|---|
| Calendar.OfEpochDayOfToEpochDay | Petra/app/src/main/java/com/petra/data/Pet.kt:17 | `OfEpochDay` (`ofEpochDay`) of `ToEpochDay` (`toEpochDay`) of any valid date gives that date back: a stored birthday reads back unchanged |
| Calendar.ToEpochDayOfOfEpochDay | Petra/app/src/main/java/com/petra/data/Pet.kt:23 | `ToEpochDay` of `OfEpochDay(e)` is `e` for every epoch day, so decoding loses nothing |
| Calendar.EpochDayOfNextDay | Petra/app/src/main/java/com/petra/viewmodel/PetViewModel.kt:56 | the calendar's next date, by month lengths and leap years, has the next epoch day |
| Calendar.EpochDayOrigin | Petra/app/src/main/java/com/petra/viewmodel/PetViewModel.kt:56 | 1970-01-01 is epoch day 0 |
| Calendar.YearOfEraField | Petra/app/src/main/java/com/petra/data/Pet.kt:24 | the year of era printed by `y` is at least 1, and equals the year from year 1 on |
| Calendar.ToNanosOfNanos | Petra/app/src/main/java/com/petra/viewmodel/PetViewModel.kt:170-171 | every instant of the time line is the position of the date-time built from it |
| Calendar.OfNanosToNanos | Petra/app/src/main/java/com/petra/viewmodel/PetViewModel.kt:170-171 | a date-time is rebuilt unchanged from its position on the time line |
| Calendar.MinusMinutes | Petra/app/src/main/java/com/petra/viewmodel/PetViewModel.kt:170 | the result lies exactly the given number of minutes earlier on the time line |
| Calendar.MinusDays | Petra/app/src/main/java/com/petra/viewmodel/PetViewModel.kt:181 | the result has the same time of day and lies exactly the given number of whole days earlier |
| Calendar.MillisBetween | Petra/app/src/main/java/com/petra/viewmodel/PetViewModel.kt:171 | the result is the whole number of milliseconds between the two instants, the sub-millisecond part dropped towards zero, so it is positive exactly when the second instant is at least a millisecond later |
| Text.ValueOfDecimal | Petra/app/src/main/java/com/petra/viewmodel/PetViewModel.kt:160 | a number's decimal numeral reads back as the number |
| Text.ZeroPaddedField | Petra/app/src/main/java/com/petra/data/Pet.kt:24 | a number below 10^width is printed with exactly `width` digits that read back as the number |
| PetRecord.AgeCountsAnniversaries | Petra/app/src/main/java/com/petra/data/Pet.kt:16-20 | `GetAge` (`getAge`, `YearsBetween` from the stored birthday): from the birthday on, the age is non-negative, its anniversary is not after today and the next one is |
| PetRecord.AgeZeroBeforeFirstAnniversary | Petra/app/src/main/java/com/petra/data/Pet.kt:16-20 | `GetAge`'s `YearsBetween` is 0 from the birthday until the first anniversary |
| PetRecord.AgeOnAnniversary | Petra/app/src/main/java/com/petra/data/Pet.kt:16-20 | on the n-th anniversary `GetAge`'s `YearsBetween` is exactly n |
| PetRecord.YearsBetweenSwapped | Petra/app/src/main/java/com/petra/data/Pet.kt:19 | swapping the two dates negates the period's years, as `Period.between` truncates towards zero |
| PetRecord.FormattedDateFields | Petra/app/src/main/java/com/petra/data/Pet.kt:22-25 | `GetFormattedDate` (`getFormattedDate`, `FormatShortDate` of the stored birthday): the label has eight characters, with slashes at positions 2 and 5 and digits elsewhere; the fields read back as month, day and year of era mod 100 |
| PetStore.KeysAscending | Petra/app/src/main/java/com/petra/data/PetDao.kt:12-13 | every key of the table once, strictly ascending |
| PetStore.OfPet | Petra/app/src/main/java/com/petra/data/PetActivityDao.kt:12 | `WHERE petId = :petId` keeps exactly the rows of that pet |
| PetStore.OfPetKeepsOrder | Petra/app/src/main/java/com/petra/data/PetActivityDao.kt:12 | filtering keeps a latest-first order and distinct ids |
| PetStore.InsertNewestFirst | Petra/app/src/main/java/com/petra/data/PetActivityDao.kt:12 | inserting into a latest-first list keeps it latest first, adds one row, and holds the new row and the old ones and nothing else |
| PetStore.InsertNewestFirstContents | Petra/app/src/main/java/com/petra/data/PetActivityDao.kt:12 | insertion adds exactly the new row: the result's multiset is the input's plus that row |
| PetStore.SortNewestFirst | Petra/app/src/main/java/com/petra/data/PetActivityDao.kt:12 | `ORDER BY dateTime DESC`: the result is latest first, has the input's length and elements, and keeps distinct ids distinct |
| PetStore.SortNewestFirstIsPermutation | Petra/app/src/main/java/com/petra/data/PetActivityDao.kt:12 | the sort is a permutation: the result holds every row exactly as often as the input |
| PetStore.AllRows | Petra/app/src/main/java/com/petra/data/PetActivityDao.kt:12 | a table scan yields every stored row once |
| PetStore.ActivitiesOfPet | Petra/app/src/main/java/com/petra/data/PetActivityDao.kt:12-13 | the query yields exactly the stored activities of the pet, each once, latest first |
| PetStore.CascadeDelete | Petra/app/src/main/java/com/petra/data/PetActivity.kt:10-15 | the cascade removes exactly the deleted pet's activities and leaves every other activity as it was |
| PetStore.CascadeKeepsForeignKey | Petra/app/src/main/java/com/petra/data/PetActivity.kt:10-15 | after the cascade, every remaining activity refers to a pet that is still stored |
| PetStore.NoActivitiesOfMissingPet | Petra/app/src/main/java/com/petra/data/PetActivity.kt:10-15 | with the foreign key kept, the query for a pet that is not stored is empty |
| PetStore.PetDatabase.GetAllPets | Petra/app/src/main/java/com/petra/data/PetDao.kt:12-13 | every stored pet, each once |
| PetStore.PetDatabase.GetPetById | Petra/app/src/main/java/com/petra/viewmodel/PetViewModel.kt:78 | the pet stored under the id, or none when there is none |
| PetStore.PetDatabase.GetActivitiesForPet | Petra/app/src/main/java/com/petra/data/PetActivityDao.kt:12-13 | exactly the pet's activities, each once, latest first; none for a pet that is not stored |
| PetStore.PetDatabase.InsertPet | Petra/app/src/main/java/com/petra/data/PetDao.kt:15-16 | adds exactly one row. Id 0 gets the next AUTOINCREMENT id, which is fresh; a taken id is refused. Returns the row's id and leaves the activities alone. The counter moves past every inserted id and nowhere else, so a deleted id is never handed out again |
| PetStore.PetDatabase.UpdatePet | Petra/app/src/main/java/com/petra/data/PetDao.kt:18-19 | replaces the row with the record's id and no other; with no such row nothing changes |
| PetStore.PetDatabase.DeletePet | Petra/app/src/main/java/com/petra/data/PetDao.kt:21-22 | removes only the row with the record's id, and by the cascade exactly that pet's activities |
| PetStore.PetDatabase.InsertActivity | Petra/app/src/main/java/com/petra/data/PetActivityDao.kt:15-16 | refused, with no change, exactly when the pet is not stored or the id is taken. Otherwise adds one row, under a fresh id when the id is 0, and leaves every other row alone. The counter moves past every inserted id and nowhere else |
| PetStore.PetDatabase.UpdateActivity | Petra/app/src/main/java/com/petra/data/PetActivityDao.kt:18-19 | replaces the row with the record's id; no change for a missing row; refused when the new pet is not stored |
| PetStore.PetDatabase.DeleteActivity | Petra/app/src/main/java/com/petra/data/PetActivityDao.kt:21-22 | removes only the row with the record's id |
| Profile.FindCurrentPet | Petra/app/src/main/java/com/petra/ui/ProfileScreen.kt:82 | some pet is found exactly when a pet with the selected id is in the list, and it is the first such pet |
| Profile.InMonth | Petra/app/src/main/java/com/petra/ui/ProfileScreen.kt:243 | a group holds exactly the activities of its month, and keeps a latest-first order |
| Profile.InsertMonth | Petra/app/src/main/java/com/petra/ui/ProfileScreen.kt:244-246 | adding a key to the sorted map's keys keeps them strictly ascending by year, then month |
| Profile.MonthsOf | Petra/app/src/main/java/com/petra/ui/ProfileScreen.kt:243-246 | the map's keys are exactly the months of the activities, strictly ascending |
| Profile.GroupByMonthPartitions | Petra/app/src/main/java/com/petra/ui/ProfileScreen.kt:243-246 | `GroupByMonth` (`groupBy` then `toSortedMap`): the groups partition the activities: keys strictly ascending, no group empty, each member in its group's month, every activity in the group of its month |
| Profile.GroupByMonthIsPermutation | Petra/app/src/main/java/com/petra/ui/ProfileScreen.kt:243-246 | read group after group, the groups of `GroupByMonth` hold exactly the input activities, each as often as in the input |
| Profile.GroupsKeepQueryOrder | Petra/app/src/main/java/com/petra/ui/ProfileScreen.kt:243 | given the query's latest-first list, every month's activities are latest first |
| Profile.GroupByMonthEmpty | Petra/app/src/main/java/com/petra/ui/ProfileScreen.kt:249 | `GroupByMonth` gives no groups exactly when there are no activities |
| Reminders.FourDigitYearField | Petra/app/src/main/java/com/petra/viewmodel/PetViewModel.kt:160 | `yyyy` prints four digits reading back as the year of era up to 9999, and a '+' and more digits beyond |
| Reminders.ActivityTimeFields | Petra/app/src/main/java/com/petra/viewmodel/PetViewModel.kt:160 | `FormatActivityTime` (`dd.MM.yyyy HH:mm`): the time has dots, space and colon in place, and two-digit day, month, hour and minute that read back as the date-time's fields |
| Reminders.ActivityTimeLength | Petra/app/src/main/java/com/petra/viewmodel/PetViewModel.kt:160 | for years 1 to 9999 `FormatActivityTime` gives sixteen characters |
| Reminders.PlanReminders | Petra/app/src/main/java/com/petra/viewmodel/PetViewModel.kt:163-189 | one immediate request, then one for each lead of at least a millisecond, waiting that lead's whole milliseconds; all carry the same payload |
| Reminders.DayReminderNeedsThirtyMinuteReminder | Petra/app/src/main/java/com/petra/viewmodel/PetViewModel.kt:169-189 | with the clock read in order, a day-before request comes only with a thirty-minute one and waits no longer |
| Reminders.TwoDaysAhead | Petra/app/src/main/java/com/petra/viewmodel/PetViewModel.kt:169-189 | an activity two days ahead gets requests after 0 ms, 171 000 000 ms and 86 400 000 ms |
| Reminders.SoonOrPast | Petra/app/src/main/java/com/petra/viewmodel/PetViewModel.kt:169-189 | an activity less than 30 minutes and a millisecond ahead, or past, gets only the immediate request |
| ViewModel.NormalizeName | Petra/app/src/main/java/com/petra/viewmodel/PetViewModel.kt:55 | a blank name becomes "Unknown Pet", any other is kept; the result is never blank |
| ViewModel.NormalizeNameIdempotent | Petra/app/src/main/java/com/petra/viewmodel/PetViewModel.kt:96 | normalising a normalised name changes nothing |
| ViewModel.NewPetImage | Petra/app/src/main/java/com/petra/viewmodel/PetViewModel.kt:53 | no image without a picked URI; otherwise what the copy returned |
| ViewModel.UpdatedImage | Petra/app/src/main/java/com/petra/viewmodel/PetViewModel.kt:79-92 | a content URI stores the copy's result, even a failed one; anything else keeps the current pet's path |
| ViewModel.FilesAfterImageUpdate | Petra/app/src/main/java/com/petra/viewmodel/PetViewModel.kt:79-92 | a content URI adds the new copy and removes the current pet's old file, even when the copy failed, and keeps every other file; otherwise the files stay the same |
| ViewModel.SelectionAfter | Petra/app/src/main/java/com/petra/viewmodel/PetViewModel.kt:147-151 | a selection is kept; with none, the first pet's id is selected if there is a pet |
| ViewModel.SelectionAfterIdempotent | Petra/app/src/main/java/com/petra/viewmodel/PetViewModel.kt:147-151 | ensuring the selection twice is the same as once |
| ViewModel.EnsuredSelectionShowsFirstPet | Petra/app/src/main/java/com/petra/ui/ProfileScreen.kt:81-82 | with nothing selected, the profile then shows the first pet of the list |
| ViewModel.PetViewModel.AllPets | Petra/app/src/main/java/com/petra/viewmodel/PetViewModel.kt:36-37 | every stored pet, and every one has a non-blank name |
| ViewModel.PetViewModel.PetActivities | Petra/app/src/main/java/com/petra/viewmodel/PetViewModel.kt:41-49 | empty while nothing is selected; otherwise the query's result for the selected pet |
| ViewModel.PetViewModel.AddPet | Petra/app/src/main/java/com/petra/viewmodel/PetViewModel.kt:51-60 | stores one pet under a fresh id, and moves the id counter one past it, with the normalised name, the birthday's epoch day (reading back as the birthday) and the copied image. The copy joins the files and stored images stay in the files |
| ViewModel.PetViewModel.UpdatePet | Petra/app/src/main/java/com/petra/viewmodel/PetViewModel.kt:76-102 | rewrites the stored pet under the same id with the normalised name, the birthday and the chosen image, and updates the files as above. A pet that is not stored stays absent |
| ViewModel.PetViewModel.DeletePet | Petra/app/src/main/java/com/petra/viewmodel/PetViewModel.kt:130-139 | removes the image file, the pet and its activities, after which its query is empty. The selection is cleared exactly when it was this pet |
| ViewModel.PetViewModel.EnsureSelection | Petra/app/src/main/java/com/petra/viewmodel/PetViewModel.kt:147-151 | the new selection is `SelectionAfter` of the old one |
| ViewModel.PetViewModel.PetName | Petra/app/src/main/java/com/petra/viewmodel/PetViewModel.kt:155-158 | the stored, non-blank name when the pet exists, and none otherwise |
| ViewModel.PetViewModel.ScheduleNotification | Petra/app/src/main/java/com/petra/viewmodel/PetViewModel.kt:153-191 | appends the planned requests, each carrying the pet's name, the type and the formatted time |
| ViewModel.PetViewModel.AddPetActivity | Petra/app/src/main/java/com/petra/viewmodel/PetViewModel.kt:62-74 | fails, with no change, exactly when the pet is not stored. Otherwise stores the activity under a fresh id, moving the activity counter one past it, then appends its reminders. The pet counter never moves |
| ViewModel.PetViewModel.UpdatePetActivity | Petra/app/src/main/java/com/petra/viewmodel/PetViewModel.kt:104-108 | replaces a stored activity whose pet exists; otherwise no change |
| ViewModel.PetViewModel.DeletePetActivity | Petra/app/src/main/java/com/petra/viewmodel/PetViewModel.kt:141-145 | removes only the activity with that id |

## Left out

- Compose UI, navigation and the rest of the profile screen: layout with no logic of its own. Locale-dependent month names and date formats are left out too.
- Coroutines, `Dispatchers.IO`, `StateFlow`, `snapshotFlow` and `flatMapLatest`: each operation is one atomic step, and `petActivities` is a function of the state.
- A refused `insertActivity` or `updateActivity` throws inside a coroutine launched with no exception handler. The exception reaches the thread's uncaught-exception handler, which ends the app's process, and the in-memory selection is lost with it. The model's `Failure` with no change describes only the tables; it does not model the crash.
- The byte copy in `copyImageToInternalStorage` and the `File.exists`/`File.delete` calls: files are a set of paths, and the copy's outcome is a parameter. `AddPet` and `UpdatePet` require that a successful copy's path is not yet a file, which the random UUID file name provides.
- ViewModel.PetViewModel.AddPet and ViewModel.FilesAfterImageUpdate: a copy that fails after its output file was opened returns null but leaves a partial file on disk. The model treats a failed copy as leaving no file, so that untracked file is not modelled.
- `WorkManager` and the notification worker: a request is reduced to its delay and its input data.
- The settings store, dependency injection, database registration and `ActivityType`: they are not read by the modelled code.
- Java's 32-bit `Int` ids and 64-bit `Long` epoch days and milliseconds: integers are unbounded, so overflow is not modelled.
- Calendar.OfEpochDay: `LocalDate` is limited to years -999,999,999 to 999,999,999 and `ofEpochDay` throws `DateTimeException` beyond them, whereas the model decodes every epoch day. Stored days all come from `toEpochDay` of a valid date, so the case does not arise from the tables.
- PetStore.PetDatabase.GetAllPets: the query has no `ORDER BY`, so SQLite's order is unspecified. The model lists pets by ascending id, which is a rowid scan's order. The "first pet" of `ensureSelection` relies on this choice.
- PetStore.SortNewestFirst: rows with equal `dateTime` keep their table order, whereas SQLite leaves ties unordered.
- Profile.InMonth: states that a group keeps a latest-first order, not that it is a subsequence of the input.
- ViewModel.PetViewModel.AddPetActivity: states the new row in the activity table, not its place in the query result. `GetActivitiesForPet` gives that place.
- ViewModel.PetViewModel.ScheduleNotification: the `description` argument is not a parameter, since the source never reads it.
- ViewModel.PetViewModel.UpdatePet: when the pet is no longer stored, the new copy stays in the files with no pet referring to it. This is what the source does.
- Reminders.PlanReminders: a request is enqueued when its lead is at least one millisecond. `toMillis` rounds a shorter positive lead to 0, and `0 > 0` is false.
