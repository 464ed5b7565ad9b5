# Course registration: a verified model of the enrollment engine

The course registration system lets students hold seats in course offerings.
Each offering has a capacity. Enroll, drop, swap, delete, clear-all and
faculty-reassign operations keep the enrollment rows and the per-offering
seat counts consistent. The same engine appears in five variants, and this
project models all of them:

- **Database variant** (`courseregv2_1.py`, and `courseregv2_2.py`, which has the same code at the same lines):
  - Module `SqliteRegistration`: class `Registrar` over the tables `courses`, `course_faculty_assignments` (the offerings) and `enrollments`, plus the ClassID sequence.
  - Every offering carries a stored counter, `EnrolledStudents`. The object invariant `Valid` states four things:
    - the counter equals the number of enrollment rows that reference the offering;
    - no offering is over capacity;
    - every enrollment references an existing offering;
    - every key was issued by the sequence: no key equals a ClassID the sequence has yet to issue.
  - Unlike the other variants, the invariant does not say that a (student, offering) pair appears at most once. The admin faculty swap (courseregv2_1.py:1034-1058) repoints a row without checking whether the student already holds the target offering, and `AdminSwapFaculty` does the same.
  - Every operation is one transaction. It either commits all its statements or, on a storage error (the parameter `storageOk`), changes nothing.
  - Module `ClassIds` covers the sequence allocator and the ClassID format. It proves that successive draws strictly increase and that a ClassID can be decoded back into its year and sequence number.
- **Spreadsheet variant** (`courseregv2.py`):
  - Module `Spreadsheet`, class `Workbook`, over the Courses and Enrollments sheets of module `Sheets`.
  - A class's count is computed live from the Enrollments rows that carry its ClassID. Capacity 0 means no limit.
  - The invariant has three parts:
    - ClassIDs are unique;
    - a (student, class) pair appears at most once;
    - every enrollment names an existing class, and that class's CourseID.
- **CSV variant** (`coursereg.py`): module `CsvRegistration`, class `CsvFiles`. A course is one row keyed by its CourseID. An enrollment is a (StudentID, CourseID) row.
- **Service variant** (`main.py`): module `Service`, the pure query `CanEnroll` and class `CourseService`.
- **Shared modules:**
  - `Rows` gives counting, filtering and first-match over sheet rows (the pandas masks), with their lemmas.
  - `Seats` holds the capacity rules: the full guard, the "Remaining Seats" column, the eligibility filter, the capacity prompt, and the capacity adjustments as the source writes them.

The pandas variants load the Students and Faculty sheets. The model keeps only their sets of IDs.

Choices made in the model:

- **Clock year:** the value the clock supplies (`datetime.now().year`) is the parameter `year`.
- **UI-guaranteed facts become preconditions:**
  - a selectbox only lists existing rows;
  - the capacity `number_input` has `min_value=1`;
  - the modify form's capacity minimum is the enrolled count.
- **Stale reads:**
  - In the source, every counter update writes back the count that was read when the page was drawn, plus or minus one. Streamlit re-runs the page on each click, so in one session that read is the current value, and the model uses the current value.
  - Decrements have no floor at zero. The invariant proves that the value written never goes below zero.

## Model

| member | source | states |
|---|---|---|
| ClassIds.NextSequence | courseregv2_1.py:112-123 | a draw returns the stored value plus one, or 100001 when the sequence row is absent (it is created at 100000) |
| ClassIds.Draws | courseregv2_1.py:95-127 | k successive draws give k numbers, each above the stored value (above 100000 when the row is absent) |
| ClassIds.DrawsIncrease | courseregv2_1.py:95-127 | successive draws strictly increase, so no sequence number is returned twice |
| ClassIds.DrawsFrom | courseregv2_2.py:112-123 | from a stored value `base` the i-th draw is `base + 1 + i` |
| ClassIds.DrawsFromFresh | courseregv2_2.py:112-123 | with no sequence row the i-th draw is `100001 + i` |
| ClassIds.DrawsSnoc | courseregv2_1.py:95-127 | one more draw appends the value that follows the last one drawn (or the first draw when none was) |
| ClassIds.ClassId | courseregv2_1.py:136-143 | a ClassID is "BL" + year + two-digit (year+1)%100 + six-digit sequence number, at least 14 characters |
| ClassIds.ClassIdRoundTrip | courseregv2_1.py:129-143 | the year and the sequence number are read back from the ClassID text |
| ClassIds.ClassIdInjective | courseregv2_1.py:129-143 | distinct (year, sequence number) pairs give distinct ClassIDs |
| ClassIds.DecimalValue | courseregv2_1.py:143 | the decimal text of n denotes n |
| ClassIds.ZeroPadValue | courseregv2_1.py:143 | zero-padding a decimal text keeps its value |
| SqliteRegistration.Cascade | courseregv2_1.py:76-77 | ON DELETE CASCADE keeps exactly the enrollment rows that reference other offerings, unchanged |
| SqliteRegistration.HoldsCourse | courseregv2_1.py:1404-1416 | the student's list of held CourseIDs: some enrollment row of the student references an offering of the course |
| SqliteRegistration.Assigned | courseregv2_1.py:492-496 | the existing-assignment query: some offering of the course is taught by the faculty member |
| SqliteRegistration.CountAfterInsert | courseregv2_1.py:848-853 | a new enrollment row raises the count of its own offering by one and leaves every other count unchanged |
| SqliteRegistration.CountAfterDelete | courseregv2_1.py:875-878 | deleting an enrollment row lowers the count of its own offering by one and leaves every other count unchanged |
| SqliteRegistration.CountAfterCascade | courseregv2_1.py:677-689 | after the cascade the deleted offering has no rows; every other count is unchanged |
| SqliteRegistration.HeldCountPositive | courseregv2_1.py:1596-1600 | an offering with an enrollment row has a count of at least 1, so `count - 1` never goes negative |
| SqliteRegistration.AbsentHasNoRefs | courseregv2_1.py:497-502 | an offering not in the table has no enrollment rows, so a new offering starts with a correct count of 0 |
| SqliteRegistration.NextIdFresh | courseregv2_1.py:129-143 | the ClassID of the next draw is not yet a key of the offerings or enrollments table |
| SqliteRegistration.DrawKeepsIssued | courseregv2_1.py:102-143 | after a draw, keys that were issued stay issued, and so does a new row keyed by the drawn ClassID: no key collides with any later ClassID |
| SqliteRegistration.EnrollKeepsAgreement | courseregv2_1.py:840-856 | one new row for an offering with its counter raised by one keeps every counter equal to its row count, and every row referenced |
| SqliteRegistration.DropKeepsAgreement | courseregv2_2.py:870-881 | deleting one row with its offering's counter lowered by one keeps every counter equal to its row count |
| SqliteRegistration.SwapKeepsAgreement | courseregv2_1.py:1764-1784 | delete-old and insert-new with one unit of count moved keeps every counter equal to its row count |
| SqliteRegistration.RepointKeepsAgreement | courseregv2_2.py:1034-1058 | repointing one row with one unit of count moved keeps every counter equal to its row count |
| SqliteRegistration.CascadeKeepsAgreement | courseregv2_1.py:678-680 | deleting an offering with its rows keeps every other counter equal to its row count |
| SqliteRegistration.NewOfferingKeepsAgreement | courseregv2_1.py:497-502 | a count-0 offering under an unused ClassID keeps every counter equal to its row count |
| SqliteRegistration.EnrollStep | courseregv2_1.py:840-856 | inserting one row under the next ClassID and raising the counter by one keeps the whole invariant |
| SqliteRegistration.DropStep | courseregv2_2.py:870-881 | deleting one row and lowering its offering's counter by one keeps the whole invariant |
| SqliteRegistration.SwapStep | courseregv2_1.py:1764-1784 | delete-old, insert-new and the two counter moves keep the whole invariant together |
| SqliteRegistration.RepointStep | courseregv2_2.py:1034-1058 | repointing one enrollment row and moving one unit of count keeps the whole invariant |
| SqliteRegistration.CascadeStep | courseregv2_1.py:678-680 | deleting an offering together with its rows keeps the whole invariant |
| SqliteRegistration.NewOfferingStep | courseregv2_1.py:497-502 | a new offering with count 0 under the next ClassID keeps the whole invariant |
| SqliteRegistration.CreatedForSkip | courseregv2_1.py:492-496 | a faculty member who already teaches the course is skipped, with nothing created for them |
| SqliteRegistration.CreatedForAdd | courseregv2_1.py:497-502 | a faculty member without an offering of the course gets one new offering, with capacity as given and count 0 |
| SqliteRegistration.CreatedFor | courseregv2_1.py:488-502 | what the faculty loop creates: one new offering of the course, with the given capacity and count 0, for each listed faculty member not yet teaching it, none for the others, and nothing else changed |
| SqliteRegistration.DrawnInOrder | courseregv2_1.py:497-502 | the created ClassIDs are, in order, those of successive draws from the starting sequence value, and the sequence stands at the last of them |
| SqliteRegistration.DrawnStep | courseregv2_1.py:497-502 | one more generated ClassID keeps the created IDs equal, in order, to the ClassIDs of successive draws, with the stored value at the last of them |
| SqliteRegistration.AddOfferingStep | courseregv2_1.py:490-502 | one pass of the faculty loop that creates an offering keeps the invariant, the per-faculty record of what was created, and the draw order |
| SqliteRegistration.AddOfferings | courseregv2_1.py:488-502 | the faculty loop: one count-0 offering per listed faculty member not yet teaching the course, each under the next drawn ClassID in order; the sequence ends `|created|` draws on, unchanged when nothing is created; the invariant holds |
| SqliteRegistration.NoCascadeLeavesOrphans | courseregv2_1.py:674-691 | without the cascade, deleting an offering that has rows leaves enrollment rows that reference no offering |
| SqliteRegistration.NoCascadeExample | courseregv2_1.py:674-691 | a one-student database in which the delete orphans the enrollment row |
| SqliteRegistration.Registrar.constructor | courseregv2_1.py:13-90 | a new database: all tables empty, no sequence row, the invariant holds |
| SqliteRegistration.Registrar.NextSequenceNumber | courseregv2_1.py:95-127 | stores and returns the stored value plus one (100001 for a new sequence) and keeps the invariant |
| SqliteRegistration.Registrar.GenerateClassId | courseregv2_1.py:129-143 | returns the ClassID of the next draw, fresh in both keyed tables, and advances the sequence |
| SqliteRegistration.Registrar.CreateCourseAssignment | courseregv2_1.py:458-512 | refuses missing fields; inserts the course only if its CourseID is absent; one new count-0 offering per listed faculty member not yet teaching it, the created ClassIDs being successive draws in order and the sequence advanced by exactly that many draws; all or nothing |
| SqliteRegistration.Registrar.ModifyCourseAssignment | courseregv2_2.py:580-611 | rewrites the course's name and credits and the offering's faculty and capacity; the enrolled count is preserved and capacity stays at or above it |
| SqliteRegistration.Registrar.DeleteCourseAssignment | courseregv2_2.py:668-689 | removes the offering and all its enrollment rows; the removed count is the count before the delete; afterwards no row references the offering |
| SqliteRegistration.Registrar.DeleteCourseAssignmentAsWritten | courseregv2_1.py:668-691 | as the code runs on SQLite: only the offering row goes, courses, enrollments and the sequence are unchanged, the recount equals the count before, and any rows are orphaned |
| SqliteRegistration.Registrar.AdminEnroll | courseregv2_1.py:840-864 | refuses an existing pair or a full offering; otherwise exactly one new row and the counter raised by one; a storage error changes nothing |
| SqliteRegistration.Registrar.AdminDrop | courseregv2_2.py:866-890 | deletes exactly the selected row of the pair and lowers the counter by one, which never goes below 0 |
| SqliteRegistration.Registrar.AdminSwapFaculty | courseregv2_2.py:1034-1064 | refused when the target offering is full; otherwise the one row is repointed and the old and new counters move by one |
| SqliteRegistration.Registrar.ClearAllEnrollments | courseregv2_1.py:1136-1150 | no enrollment row is left and every offering's count is 0, with nothing else changed |
| SqliteRegistration.Registrar.RemoveMyAssignment | courseregv2_1.py:1302-1320 | the faculty member's offering is deleted together with its enrollment rows |
| SqliteRegistration.Registrar.ReassignMyAssignment | courseregv2_1.py:1336-1373 | deletes the offering with its rows; if the new faculty member does not teach the course, creates an offering for them with the same capacity, count 0 and a fresh ClassID |
| SqliteRegistration.Registrar.ReassignMyAssignmentAsWritten | courseregv2_1.py:1336-1373 | when the new faculty member already teaches the course, success is reported and nothing changes, because the delete is never committed; otherwise the offering and its rows go and one count-0 offering with the same capacity is created for the new faculty member under the next drawn ClassID |
| SqliteRegistration.Registrar.StudentEnroll | courseregv2_1.py:1474-1500 | refuses when the student holds any section of the course or the offering is full; otherwise one row and the counter raised by one |
| SqliteRegistration.Registrar.StudentDrop | courseregv2_1.py:1590-1606 | deletes exactly the selected row and lowers its offering's counter by one |
| SqliteRegistration.Registrar.StudentSwap | courseregv2_1.py:1744-1790 | refused without change for the same offering, a new offering of another course than the dropped one whose course the student already holds, or a full new offering; otherwise one transaction of delete, insert under a fresh ClassID, and the two counter moves |
| Rows.Count | courseregv2.py:290 | the count of rows meeting a mask is at most the number of rows and is 0 exactly when no row meets it |
| Rows.Keep | courseregv2.py:337-338 | filtering keeps exactly the rows meeting the mask, as many as Count gives |
| Rows.First | courseregv2.py:288 | `index[0]` of a filtered frame: the first matching row, or None exactly when no row matches |
| Rows.CountAppend | courseregv2.py:296-297 | appending a row adds one to the count exactly when that row meets the mask |
| Rows.CountKeep | courseregv2.py:337-338 | filtering by p removes from q's count exactly the rows that meet q but not p |
| Rows.CountKeepLe | main.py:218-219 | filtering never raises a count |
| Rows.CountUpdate | courseregv2.py:230 | rewriting a row changes a count only by that row's own match before and after |
| Rows.FirstUpdate | courseregv2.py:230 | rewriting a row without changing its match leaves the first match unchanged |
| Rows.FirstAppend | courseregv2.py:161 | appending a row only adds a first match when no earlier row matched |
| Rows.CountTwo | courseregv2.py:136 | two distinct matching rows make the count at least 2 |
| Seats.RemainingSeats | coursereg.py:341-343 | "Remaining Seats" is capacity minus count for a positive capacity, otherwise "Unlimited" |
| Seats.IsFull | courseregv2.py:292 | the full guard of every add and enroll (also courseregv2.py:600 and 764, coursereg.py:244 and 460): a positive capacity with no seat left; a capacity of 0 or less is never full |
| Seats.Listed | courseregv2.py:569-572 | the eligibility filter: Capacity 0, or remaining seats above 0 |
| Seats.RemainingAgreesWithFull | main.py:151-154 | the column shows no seat left exactly when the full guard holds |
| Seats.ListedIffNotFull | courseregv2.py:569-572 | a listed class is never full; for a non-negative capacity, the list shows exactly the classes that are not full |
| Seats.CapacityOnCreate | coursereg.py:126-131 | a blank or unparsable capacity becomes 0, which is never full; a number is kept |
| Seats.CapacityAfterRemoveAsWritten | courseregv2.py:341-343 | admin remove as written raises every non-negative Capacity by one |
| Seats.CapacityReleasedAsWritten | courseregv2.py:779-780 | the swap as written raises the old class's positive Capacity by one |
| Seats.CapacityTakenAsWritten | courseregv2.py:782-783 | the swap as written lowers the new class's positive Capacity by one |
| Seats.RemoveAsWrittenLimitsUnlimited | coursereg.py:291-293 | as written, removing one of two students from an unlimited class leaves a one-seat class that is full |
| Seats.RemoveAsWrittenOverfills | coursereg.py:289-293 | as written, after one remove from a full class, two adds pass the full guard and the class ends over capacity |
| Seats.SwapAsWrittenUnlimitsLastSeat | courseregv2.py:782-783 | as written, swapping into the last seat of a one-seat class turns it into an unlimited class |
| Seats.SwapAsWrittenCountsTwice | courseregv2.py:762-787 | as written, one swapped student lowers the new class's remaining seats by two |
| Seats.SwapAsWrittenReleasesTwice | courseregv2.py:779-780 | as written, one swapped student raises the old class's remaining seats by two |
| Sheets.OnlyRow | courseregv2.py:458 | with unique ClassIDs, the only row carrying a ClassID is the one the lookup finds |
| Sheets.HeldClassExists | courseregv2.py:641-644 | a held pair names an existing class, so the source's missing-row checks cannot fire |
| Sheets.EnrolledAfterAppend | main.py:198-205 | appending an enrollment raises its class's live count by one and leaves every other count unchanged |
| Sheets.EnrolledAfterRemove | courseregv2.py:648-650 | removing a held pair lowers its class's live count by exactly one and leaves every other count unchanged |
| Sheets.RemovedPairGone | main.py:218-219 | after the filter no row of the pair remains |
| Sheets.AppendKeepsConsistent | courseregv2.py:296-298 | appending a new pair for an existing class under that class's CourseID keeps the invariant |
| Sheets.RemoveKeepsConsistent | courseregv2.py:337-339 | removing the rows of a pair keeps the invariant |
| Sheets.UpdateKeepsConsistent | courseregv2.py:214-234 | rewriting a class row with the same ClassID and CourseID keeps the invariant and every lookup |
| Sheets.AddClassKeepsConsistent | courseregv2.py:136-162 | appending a class under a new ClassID keeps the invariant and every other lookup |
| Spreadsheet.EnrollAsWrittenMismatch | courseregv2.py:581-606 | a concrete workbook where every check of enroll_course passes, yet the appended row names a class of another course |
| Spreadsheet.MismatchOfTwoClasses | courseregv2.py:581-606 | for any two classes of different courses with a positive Capacity and no students yet, enrolling in the second under the first one's CourseID passes every check as written and breaks the CourseID agreement |
| Spreadsheet.SwapAsWrittenMismatch | courseregv2.py:744-774 | a concrete workbook where every check of swap_course passes, yet the moved row names a class of another course |
| Spreadsheet.SwapMismatchOfThreeClasses | courseregv2.py:744-774 | for any held class and two positive-capacity classes of different courses with no students, swapping into the second under the first one's CourseID passes every check as written and breaks the CourseID agreement |
| Spreadsheet.ListedFor | courseregv2.py:559-574 | the list shown for a typed course is not empty: some class of that course, other than the one being dropped, passes the eligibility filter |
| Spreadsheet.EnrollAcceptedAsWritten | courseregv2.py:553-602 | the guards of enroll_course as written: a listed class of the typed course, the chosen ClassID found anywhere in the sheet, a new pair, not full |
| Spreadsheet.EnrollAccepted | courseregv2.py:553-602 | the same guards with the chosen class required to belong to the typed course |
| Spreadsheet.SwapAcceptedAsWritten | courseregv2.py:711-766 | the guards of swap_course as written: the old pair is held, the new course lists a class other than the old one, the new ClassID is found anywhere in the sheet, not yet held, and not full by the count before the drop |
| Spreadsheet.SwapAccepted | courseregv2.py:711-766 | the same guards with the new class required to belong to the typed course |
| Spreadsheet.Workbook.constructor | courseregv2.py:16-39 | a new workbook: all sheets empty, the invariant holds |
| Spreadsheet.Workbook.CreateCourseAssignment | courseregv2.py:130-163 | refuses a ClassID already in the sheet; otherwise appends one class row, with a blank or unparsable capacity becoming 0; an unknown faculty member only draws a warning |
| Spreadsheet.Workbook.ModifyCourseAssignment | courseregv2.py:165-235 | refuses an unknown ClassID; otherwise rewrites only that row: name if given, faculty only if registered, capacity if numeric, with a warning when a positive capacity is below the live count |
| Spreadsheet.Workbook.AdminAdd | courseregv2.py:243-300 | refuses an unknown student, an unknown ClassID, an existing pair, or a full class; otherwise appends exactly (student, class's CourseID, ClassID), which keeps the count within a positive capacity |
| Spreadsheet.Workbook.AdminRemove | courseregv2.py:305-340 | refuses an absent pair; otherwise removes every row of the pair, the class's live count drops by one, and Capacity is left unchanged |
| Spreadsheet.Workbook.AdminRemoveAsWritten | courseregv2.py:305-343 | as written: the pair's rows go and the class's Capacity rises by one whenever it is not negative |
| Spreadsheet.Workbook.ReassignClass | courseregv2.py:435-481 | refuses a class the member does not teach, when no other faculty exists, or an unregistered new faculty member; otherwise only that row's FacultyID changes |
| Spreadsheet.Workbook.StudentEnroll | courseregv2.py:528-606 | accepts exactly when the course has a listed class, the chosen class is of that course, the pair is new and the class is not full; then appends one row and leaves Capacity unchanged |
| Spreadsheet.Workbook.StudentEnrollAsWritten | courseregv2.py:581-606 | as written: the chosen ClassID is looked up in the whole sheet |
| Spreadsheet.Workbook.StudentDrop | courseregv2.py:617-658 | refuses an absent pair; otherwise removes its rows, the live count drops by one, and Capacity is unchanged |
| Spreadsheet.Workbook.StudentSwap | courseregv2.py:660-794 | every check precedes any write; refused without change when the new class does not belong to the typed course (the corrected check), when already in the new class, or when the new class is full by counts before the drop; otherwise the old pair's rows go and one new row is appended, the two counts moving by one |
| Spreadsheet.Workbook.StudentSwapAsWritten | courseregv2.py:745-787 | as written: the new ClassID is looked up in the whole sheet, so a class of another course is accepted and the row carries the typed CourseID; the pair moves, with the old class's positive Capacity raised by one and the new class's positive Capacity lowered by one |
| CsvRegistration.SeatsView | coursereg.py:325-350 | one line per course, showing its row, its live count, and as remaining seats capacity minus that count for a positive capacity, otherwise "Unlimited" |
| CsvRegistration.SeatsViewAgreesWithFull | coursereg.py:341-343 | a line shows "Unlimited" exactly when Capacity is 0 or less, and no seat left exactly when the course is full |
| CsvRegistration.CsvFiles.constructor | coursereg.py:13-20 | new files: all empty, the invariant holds |
| CsvRegistration.CsvFiles.CreateCourse | coursereg.py:110-141 | refuses an existing CourseID; otherwise appends one course row, with a blank or invalid capacity becoming 0 |
| CsvRegistration.CsvFiles.AdminAdd | coursereg.py:228-250 | refuses an unknown student, an unknown course, an existing pair, or a full course; otherwise appends exactly one row |
| CsvRegistration.CsvFiles.StudentEnroll | coursereg.py:428-472 | refuses an unknown course, a duplicate, or a full course; otherwise appends exactly one row and leaves Capacity unchanged |
| CsvRegistration.CsvFiles.AdminRemove | coursereg.py:278-288 | refuses when not enrolled; otherwise removes the pair's rows, the live count drops by one, and Capacity is unchanged |
| CsvRegistration.CsvFiles.AdminRemoveAsWritten | coursereg.py:278-293 | as written: after the removal, the course's Capacity rises by one whenever it is not negative |
| Service.CanEnroll | main.py:164-178 | false for an unknown ClassID; true for Capacity 0; otherwise true exactly when the live count is below Capacity |
| Service.CanEnrollIffNotFull | main.py:164-178 | for a non-negative Capacity, can_enroll is exactly the negation of the full guard the other variants use |
| Service.EnrollmentInfo | main.py:134-162 | one line per class row, carrying that row and its live count |
| Service.InfoRemaining | main.py:151-154 | each line's remaining seats are capacity minus count when capacity is positive, otherwise "Unlimited" |
| Service.InfoAgreesWithCanEnroll | main.py:150-178 | the shown remaining seats and can_enroll agree on every class with non-negative Capacity |
| Service.CourseService.constructor | main.py:131-133 | a new service: empty sheets, the invariant holds |
| Service.CourseService.EnrollStudent | main.py:180-206 | false with no write when can_enroll fails or the pair exists; otherwise appends exactly (student, class's CourseID, ClassID) and returns true |
| Service.CourseService.DropStudent | main.py:208-221 | false with no write when the pair is absent; otherwise removes exactly the pair's rows, keeps all others, and returns true |

## Left out

- The user interface:
  - Streamlit forms, buttons, `st.rerun` and session state;
  - the `input()`/`print` menus;
  - the messages;
  - parsing IDs out of display strings;
  - upper-casing and trimming of typed IDs.
- Storage mechanics:
  - SQLite connections and the schema creation;
  - the retry with back-off in `execute_query`;
  - Excel/CSV load and save;
  - pandas merges used only for display.
- A storage error is the single parameter `storageOk`. Every transaction is all or nothing.
- Authentication, the default admin account, and the student and faculty add/modify screens. These are plain uniqueness-checked inserts with no enrollment rules.
- `modify_class_id_sequence` in the database variant.
- The reading of the clock in `generate_class_id`. The year is a parameter, and `FourDigitYear` requires four digits.
- Concurrency. The program is single-process.
- Empty-sheet early exits ("No students registered", "no enrollments to remove"). Each is folded into the not-found or not-enrolled status that the same input would reach.
- The admin enroll and drop lists in the database variant are built from offerings below capacity (courseregv2_1.py:781-785). The model lets the admin drop from any offering the student holds.
- SqliteRegistration.Registrar.StudentSwap: the list of offerings to swap into leaves out every offering the student already holds (courseregv2_1.py:1685-1687). The model accepts any offering as the target, so a student who holds two sections of one course (possible through the admin enroll) can swap one into the other, which leaves two rows for that pair.
- The student eligibility filter in the spreadsheet variant compares the "Remaining Seats" column with 0 (courseregv2.py:569-572), and so does the swap's (courseregv2.py:732-735). That column holds the text 'Unlimited' for any class with Capacity at most 0 (courseregv2.py:562-564), so for any course with such a class the comparison fails as read. The model uses the evident rule `Seats.Listed`.
- Reads of `EnrolledStudents` taken when the page was drawn are modelled as the current value.
- SqliteRegistration.Registrar.RemoveMyAssignment and SqliteRegistration.Registrar.ReassignMyAssignment: they delete with the cascade the code relies on. As written, SQLite leaves foreign keys unenforced, so these deletes orphan rows the same way `DeleteCourseAssignmentAsWritten` shows.
- SqliteRegistration.Registrar.ReassignMyAssignmentAsWritten: on the branch that commits (the new faculty member does not yet teach the course) it deletes with the cascade, as `ReassignMyAssignment` does; only the uncommitted branch is modelled as SQLite runs it.
- SqliteRegistration.Registrar.AdminDrop: the source takes the first matching row (`iloc[0]`). The model takes any row of the pair.
- Service.CourseService: the DataManager file layer is left out. The sheets are fields of the object.
- Each file's role:
  - courseregv2_2.py is covered by the same `SqliteRegistration` model.
  - `Options`, `ClassIds.Decimal`, `ClassIds.ZeroPad`, `ClassIds.LeadingZeroValue`, `Rows.CountPositive`, `Rows.CountWitness`, `SqliteRegistration.CreatedForStart`, `SqliteRegistration.PrefixExtends`, `CsvRegistration.HeldCourseExists` and `CsvRegistration.CsvFiles.Append`/`Remove`/`RaiseCapacity` are helpers shared by the members above.
  - The masks, queries and invariant parts that the contracts are written in are definitions, with no contract of their own:
    - `ClassIds.DigitChar`, `DigitValue`, `ValueOf`, `YearOf`, `SequenceOf`;
    - `Sheets.IsClass`, `OfCourse`, `Teaches`, `InClass`, `IsPair`, `NotPair`, `FindClass`, `HasPair`, `WithoutPair`, `UniqueClassIds`, `UniquePairs`, `Referenced`, `CourseAgrees`, `Consistent`;
    - `CsvRegistration.IsCourse`, `InCourse`, `IsPair`, `NotPair`, `FindCourse`, `Enrolled`, `HasPair`, `WithoutPair`, `Consistent`;
    - `SqliteRegistration.RefsTo`, `CountRefs`, `Holds`, `Stored`, `Referenced`, `CountsAgree`, `WithinCapacity`, `KeysIssued`, `SequenceOk`, `Consistent`.
  - The committed writes of each transaction are the helper methods `SqliteRegistration.Registrar.Enroll`, `DropRow`, `Repoint` and `Swap`, and `Spreadsheet.Workbook.Move` for the spreadsheet swap. Each states its new state and keeps the invariant for the operations that call it.

## Findings

| source | as written | input that shows it | evidently intended | confidence | as-written member | corrected member |
|---|---|---|---|---|---|---|
| courseregv2_1.py:674-691 | the offering is deleted with foreign keys left unenforced, so ON DELETE CASCADE never runs and the enrollment rows stay | one offering with one enrolled student; delete it: the row still references the deleted offering, and the recount after the commit is 1 | the offering's enrollment rows are deleted with it, and the recount is 0 | not executed | SqliteRegistration.Registrar.DeleteCourseAssignmentAsWritten | SqliteRegistration.Registrar.DeleteCourseAssignment |
| courseregv2_1.py:1345-1352 | when the new faculty member already teaches the course, the DELETE is issued but the connection is closed without a commit | faculty F1 reassigns offering O of CS101 to F2, who already teaches CS101: success is shown and O is still there | the faculty member's offering is removed | not executed | SqliteRegistration.Registrar.ReassignMyAssignmentAsWritten | SqliteRegistration.Registrar.ReassignMyAssignment |
| courseregv2.py:341-343 | admin remove raises Capacity by one whenever it is at least 0, but counts are live and nothing lowers Capacity on add | a class with Capacity 0 (no limit) and two students; remove one: Capacity 1 with one student, so the class is full | Capacity stays as it is, as in drop_course | not executed | Spreadsheet.Workbook.AdminRemoveAsWritten | Spreadsheet.Workbook.AdminRemove |
| coursereg.py:291-293 | the same increment on admin remove | a full course; remove one student, then add two: both adds pass, ending over the original capacity | Capacity stays as it is | not executed | CsvRegistration.CsvFiles.AdminRemoveAsWritten | CsvRegistration.CsvFiles.AdminRemove |
| courseregv2.py:778-783 | the swap adjusts Capacity by one on both classes although counts are live | swap into the last seat of a class with Capacity 1: its Capacity becomes 0, which means unlimited | Capacity of both classes unchanged | not executed | Spreadsheet.Workbook.StudentSwapAsWritten | Spreadsheet.Workbook.StudentSwap |
| courseregv2.py:581-606 | the chosen ClassID is looked up in the whole Courses sheet, not among the typed course's classes | classes C1 of CS101 (Capacity 30) and C2 of MA201 (Capacity 25), no enrollments; type CS101 (C1 listed), then enter C2: the row (S001, CS101, C2) is written | only a class of the typed course is accepted | not executed | Spreadsheet.Workbook.StudentEnrollAsWritten | Spreadsheet.Workbook.StudentEnroll |
| courseregv2.py:744-774 | the new ClassID is looked up in the whole Courses sheet, not among the typed course's classes, and the new row carries the typed CourseID | holding C1 of CS101, type MA201 (C2 listed), then enter C3, a PH301 class: the row (S001, MA201, C3) is written | only a class of the typed course is accepted | not executed | Spreadsheet.Workbook.StudentSwapAsWritten | Spreadsheet.Workbook.StudentSwap |
