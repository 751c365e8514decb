# Reminder bot bookkeeping, modelled in Dafny

A model of the reminder bookkeeping of a Telegram reminder bot (`main.py`).
Telegram, SQLite and Google Drive are not part of it. It has four parts.

- **The database file** (`database.dfy`, `records.dfy`). This is the class
  `Database.Store`:
  - one reminder table `user_<id>` per user: rows, plus the AUTOINCREMENT
    counter, which never reissues an id;
  - one attachment table `attachments_<user>_<reminder>` per reminder:
    `(file_path, file_name)` rows.

  Each bot function that opens the file, runs its statements and commits is a
  method. The method updates the two fields in place. Its contract gives the
  new state as a function of the old one, on the datatype `Database.Db`. A
  missing table is modelled as the error SQLite raises (`NoSuchTable` or
  `ok == false`), not as a precondition.
- **The validators** (`validators.dfy`, `text.dfy`):
  - `validate_time_format`. The model follows the regular expression that
    `strptime("%H:%M")` builds, including its backtracking and the
    "unconverted data remains" check.
  - The `[days hours minutes]` reply of `ask_periodic_interval`: the
    `re.match`, `split`, `int`, all-zero and `timedelta` steps.
- **The due-reminder scan `check_reminders`** (`scheduler.dfy`). The method
  walks the undone rows in a loop. It is proved equal to a left fold `Scan`
  over the snapshot it read. Then a closed form says what the fold does:
  - every walked row is settled;
  - one successor row is added per due recurring row;
  - one notice is sent per due one-shot row;
  - when an exception is raised, everything before it stays.
- **The conversation handlers with several statements** (`conversation.dfy`):
  - `end_command_handler`, and the `flag`/`ind` globals it resets (the class
    `Conversation.Session`);
  - the reply to the interval prompt;
  - the reply to the time prompt when a date is edited;
  - the order of the completed-reminders list (`ordering.dfy`).

Dates are whole minutes. `datetime.now()` and the chosen calendar day are
parameters (`now`, `day`). The remote deletes that `delete_reminder` requests
are returned as a list of file references. The scan's messages are returned
as a list of `Notice`s.

Four things the code does are modelled as written:

- **Successor's `periodic_time`.** A successor row (from the scan or from
  "end") gets `periodic_time` at its column default `'0 0 0'`. So it is not
  recurring itself.
- **Attachment copy target.** The attachments of a recurring row are copied
  to reminder id `reminder[0] + 1`. The successor's id is the counter's next
  value. The two agree only when the recurring row holds the last id issued,
  as on its first cycle when it is the latest reminder. Otherwise the copy
  misses the successor. `Scheduler.RecurCopiesToNextId`,
  `Scheduler.SuccessorMissesAttachments` and
  `Conversation.EndCommandCopyTarget` state when the two agree.
- **A successor can stop the scan.** A recurring row whose attachment flag
  is 1 passes that flag on to its successor (main.py:753-754). If the
  successor's id is not the row's id + 1, the successor inherits the flag but
  gets no attachment table. This happens from the row's second cycle on, or
  when the row was not the latest reminder. A successor of a flag-0 row keeps
  flag 0, so its attachments are never read (main.py:760), and it is
  announced normally. The flag-1 successor is a one-shot row. Once it is due,
  reading its attachments raises on every tick
  (`Scheduler.ScanJamsOnSuccessor`), so it is never marked done. The undone
  rows after it are not announced either.
- **Retry drops the id.** After a refused interval reply, the prompt is
  registered again without the reminder id. The next reply then goes to the
  latest reminder (`Conversation.RetryForgetsReminder`).

Some functions only compute the behaviour of a source function; the lemma
rows below state their properties:

- `Scheduler.Scan`, `ScanPrefix`, `Step`, `Fire`, `Recur` and `NoticeText`:
  the loop of `check_reminders` (main.py:741-782). `Scheduler.CheckReminders`
  is proved equal to `Scan`. The properties are stated by `ScanFinal` and the
  `Scan*` and `Spawned*` rows.
- `Validators.ParseClock`: `strptime` (main.py:386-391), stated by the
  `ParseClock*` rows.
- `Validators.ParseInterval`, `PeriodFields`, `TimedeltaOverflows` and
  `StoredPeriod`: the parse at main.py:453-459 and main.py:749-750, stated
  by the `Interval*` rows and `AcceptedPeriod`.
- `Text.ParseInt`: `int()` (main.py:456), stated by `IntervalTextParses`.
- `Conversation.IntervalDialogue`: the re-registration at main.py:470,
  stated by `RetryForgetsReminder`.
- `Conversation.CompletedList` and `Ordering.LatestFirst`: main.py:309-314,
  stated by `CompletedListOrder` and the `Ordering` rows.
- `Records.UpdateWhere`: the UPDATE statements, stated by `UpdateChangesRow`,
  `UpdateKeepsOtherRows` and `UpdateKeepsAscending`.

## Model

| member | source | states |
|---|---|---|
| Records.WithDone | main.py:53-59 | `WHERE done = ?` returns exactly the table's rows carrying that flag value, in id order |
| Records.RemoveId | main.py:238 | `DELETE ... WHERE id = ?` keeps exactly the rows with another id, in id order |
| Records.Find | main.py:732-738 | `fetchone` of `WHERE id = ?` is a row of the table with that id, and None only when no row has it |
| Records.MaxId | main.py:660-669 | `ORDER BY id DESC LIMIT 1` is None exactly on an empty table, else an id of the table that no row exceeds |
| Records.MaxIdIsLast | main.py:660-669 | in a table in id order the latest id is the one of the last row |
| Records.FindUnique | main.py:732-738 | in a table in id order the lookup by id returns exactly the row carrying that id |
| Records.UpdateKeepsAscending | main.py:203-208 | an UPDATE keeps every id, so the table stays in id order |
| Records.UpdateChangesRow | main.py:203-208 | an UPDATE by id rewrites the row with that id in the set column only, and adds none when no row has it |
| Records.UpdateKeepsOtherRows | main.py:203-208 | an UPDATE by id leaves every row with another id unchanged |
| Database.CreateUserTableKeepsValid | main.py:29-41 | `CREATE TABLE IF NOT EXISTS` keeps every table in id order within its counter |
| Database.InsertKeepsValid | main.py:44-50 | the appended row's id is above every id in the table, so the table stays in id order within its counter |
| Database.UpdateKeepsValid | main.py:301-306 | an UPDATE by id keeps the tables valid |
| Database.UpdateLatestKeepsValid | main.py:62-68 | the UPDATE of the row with the largest id keeps the tables valid |
| Database.DeleteReminderKeepsValid | main.py:219-245 | deleting a reminder keeps the tables valid |
| Database.InsertIssuesFreshId | main.py:44-50 | `add_to_database` appends one row with the next counter value, above every earlier id, with done 0 and periodic_time '0 0 0'; `get_latest_reminder_id` then returns that id; other users' tables are unchanged |
| Database.UpdateTouchesOneTable | main.py:262-267 | an UPDATE by id changes one row at most: looked up by id, that row reads back changed in the set column, every other id reads back as before, the row count and the counter stay, and no other table or attachment list changes |
| Database.MarkAsSetsOnlyDone | main.py:203-208 | `mark_as` sets `done` on the row with the id and keeps every other row as it was |
| Database.DeleteReminderCascades | main.py:219-245 | `delete_reminder` removes the row with the id and that reminder's whole attachment table; other rows, other tables and the counter are unchanged |
| Database.CopyFilesSharesRefs | main.py:724-729 | after a copy that does not raise, reading the new table returns what reading the source returns (the same remote references), every table that existed reads as before, and copying again changes nothing |
| Database.DeleteFileRemovesRef | main.py:171-183 | deleting by file_path removes exactly the rows with that reference, keeps every other row as often as it was there, touches no other table, and deleting again changes nothing |
| Database.WithoutPath | main.py:175-177 | the rows left by `DELETE ... WHERE file_path = ?` are those with another reference, each as often as before; with no row matching, the table is unchanged |
| Database.WithoutPathSplits | main.py:175-177 | the DELETE keeps the remaining rows in table order: deleting from a table is deleting from each of its parts, joined in the same order |
| Database.Store.CreateUserRemindersTable | main.py:29-41 | the new state is the old one with an empty table for the user when it had none |
| Database.Store.AddToDatabase | main.py:44-50 | appends the row as `Db.Insert` says; `ok` is false exactly when the user has no table |
| Database.Store.GetUserReminders | main.py:53-59 | returns exactly the user's rows with `done` equal to 1 if `done` else 0; raises when there is no table |
| Database.Store.UpdateAttachmentFolder | main.py:62-68 | sets the flag on the row with the largest id only |
| Database.Store.MarkAs | main.py:203-208 | the new state is the old one with `done := value` on the rows with the id |
| Database.Store.UpdateDescription | main.py:262-267 | the new state is the old one with the description set on the rows with the id |
| Database.Store.UpdateDate | main.py:301-306 | the new state is the old one with the date set on the rows with the id |
| Database.Store.UpdatePeriodicInfo | main.py:473-484 | sets `period` and `periodic_time` on the rows with the id; returns false exactly where the UPDATE raises |
| Database.Store.GetLatestReminderId | main.py:660-669 | None exactly for an empty table, else the largest id of the table |
| Database.Store.GetReminderInfo | main.py:732-738 | the row with that id, or None when no row has it |
| Database.Store.DeleteReminder | main.py:219-245 | the loop requests one remote delete per stored file_path, in table order; the new state is `Db.DeleteReminder` (cascade) |
| Database.Store.CreateAttachmentsTable | main.py:548-561 | creates the reminder's attachment table, empty, when it does not exist yet |
| Database.Store.SaveFileInfoToDatabase | main.py:595-603 | appends `(file_path, file_name)` to the reminder's attachment table; raises when that table is missing |
| Database.Store.GetAllFilesInfoFromDatabase | main.py:147-156 | returns the attachment rows in order; raises exactly when the table is missing |
| Database.Store.DeleteFileFromDatabase | main.py:171-183 | removes the rows with that file_path; returns false exactly when the table is missing |
| Database.Store.CopyAttachments | main.py:724-729 | the new state is `Db.CopyFiles`; `ok` is false exactly when the source table is missing and the target does not exist |
| Text.WordsCons | main.py:456 | `str.split()` splits off a leading word ended by whitespace |
| Text.Words | main.py:456 | `str.split()` never yields an empty word or one holding whitespace, and yields some word whenever the text has a non-space character |
| Text.DigitRunOf | main.py:453-454 | `\d+` takes exactly the run of digits in front of a non-digit |
| Validators.MatchClock | main.py:388 | the first match of `(2[0-3]\|[0-1]\d\|\d):([0-5]\d\|\d)` has a one- or two-digit hour group, a colon and a one- or two-digit minute group whose first digit is 0-5 when it has two |
| Validators.ValidateTimeFormat | main.py:386-391 | `validate_time_format` holds exactly when the text reads as some hour 0-23 and minute 0-59 of one or two digits each, with nothing after them |
| Validators.HourAtMost23 | main.py:386-391 | every hour the strptime pattern matches is at most 23 |
| Validators.MinuteAtMost59 | main.py:386-391 | every minute the strptime pattern matches is at most 59 |
| Validators.ParseClockSound | main.py:386-391 | an accepted text is an hour 0-23 of one or two digits, a colon and a minute 0-59 of one or two digits, with nothing after it |
| Validators.ParseClockComplete | main.py:386-391 | every such text is accepted, and yields that hour and minute |
| Validators.ParseClockIff | main.py:386-391 | `validate_time_format` holds exactly for those texts, both directions; it never raises |
| Validators.ParseClockBounded | main.py:386-391 | an accepted time has hour at most 23 and minute at most 59 |
| Validators.ClockAcceptsTwoDigits | main.py:386-391 | "09:30" is 9:30 |
| Validators.ClockAcceptsOneDigitHour | main.py:386-391 | "9:05" is 9:05 (the regex backtracks to one hour digit) |
| Validators.ClockRefusesHour24 | main.py:386-391 | "24:00" is refused |
| Validators.ClockRefusesMinute60 | main.py:386-391 | "12:60" is refused |
| Validators.ClockRefusesTrailing | main.py:386-391 | "12:345" is refused (unconverted data remains) |
| Validators.IntervalTextMatches | main.py:453-454 | three digit groups separated by single spaces, optionally followed by one newline, match `^\d+ \d+ \d+$` |
| Validators.IntervalTextWords | main.py:456 | such a text splits into exactly those three groups |
| Validators.IntervalTextParses | main.py:453-456 | such a text passes the pattern and `map(int, split())` gives the three decimal values |
| Validators.IntervalAccepted | main.py:450-470 | on such a text the reply is refused when all three are zero, raises OverflowError past `timedelta`'s range, else accepted with those values |
| Validators.PatternShape | main.py:453-454 | every text the pattern matches is of that shape |
| Validators.IntervalSound | main.py:453-459 | only texts of that shape get past the ValueError checks |
| Validators.AcceptedPeriod | main.py:456-459 | an accepted interval has non-negative fields and a positive period of days·1440 + hours·60 + minutes minutes, which the scan's own parse of the stored text reads back (main.py:749-750) |
| Validators.IntervalRefusesAllZero | main.py:457-458 | "0 0 0" is refused |
| Validators.IntervalOneDay | main.py:456-459 | "1 0 0" is accepted as a period of one day, 1440 minutes |
| Ordering.InsertByDate | main.py:314 | inserting a row adds exactly that row to the multiset |
| Ordering.InsertKeepsDescending | main.py:314 | inserting by date keeps a latest-first list latest-first |
| Ordering.LatestFirstDescending | main.py:314 | the sorted list has dates in non-increasing order |
| Ordering.LatestFirstPermutes | main.py:314 | the sorted list is a permutation of the input |
| Ordering.InsertOnDate | main.py:314 | inserting a row puts it in front of the rows of its own date |
| Ordering.LatestFirstStable | main.py:314 | rows with the same date keep their input order, as Python's stable sort with `reverse=True` does |
| Scheduler.AbortSticks | main.py:741-782 | once an exception escapes, later rows change nothing |
| Scheduler.Announce | main.py:747-769 | the message is "Reminder: <description>", then "\nAttachments:" and one "\n<file_name>" per attachment when there are any |
| Scheduler.CheckReminders | main.py:741-782 | the loop over the undone rows leaves the store and the sent notices equal to the fold `Scan` over the snapshot |
| Scheduler.WalkRow | main.py:744-746 | one loop turn: a row that is not due changes nothing |
| Scheduler.FireRow | main.py:747-750 | a due row is recurring when `period` is set and `periodic_time != '0 0 0'`; a stored interval that does not parse raises |
| Scheduler.AdvanceRow | main.py:751-758 | a due recurring row: `update_date` by its period, `add_to_database` of the successor, and a copy of the attachment table to id + 1 when the flag is 1 |
| Scheduler.AnnounceRow | main.py:759-782 | a due one-shot row is announced with its attachment names and documents, then marked done |
| Scheduler.SpawnedIds | main.py:753 | the successor rows get the counter's next ids, one by one |
| Scheduler.ExpectedValid | main.py:741-782 | the table the walk leads to keeps ids in order within the counter; each old row is settled in place; every new row is a successor |
| Scheduler.ReachedPastRow | main.py:744-782 | one loop turn takes the closed form over the walked rows to the closed form over one more row, or raises before changing anything |
| Scheduler.ScanReaches | main.py:741-782 | by induction over the rows: the walk over any id-ordered prefix reaches the closed form over the rows it settled |
| Scheduler.ScanFinal | main.py:741-782 | `check_reminders` settles a prefix of the undone rows, all of them when nothing was raised, and the state is the closed form over that prefix |
| Scheduler.ScanLeavesRow | main.py:744-746 | a done row or a row not yet due is left unchanged, even when the walk was cut short |
| Scheduler.ScanFindsSettled | main.py:746-782 | when nothing was raised, every undone due row holds its settled value |
| Scheduler.ScanSettlesRow | main.py:746-782 | when nothing was raised, a due one-shot row ends with `done = 1`; a due recurring row stays undone with its date moved by its period, counted from its stored date, not from now |
| Scheduler.SpawnedFrom | main.py:753 | each successor answers a due recurring walked row |
| Scheduler.SpawnedFor | main.py:753 | each due recurring walked row has its successor |
| Scheduler.ScanAddsSuccessor | main.py:748-753 | when nothing was raised, each undone due recurring row has a new row, with an id above the old counter: same description, attachment flag and period flag, the advanced date, undone, `periodic_time` '0 0 0' |
| Scheduler.ScanAddsOnlySuccessors | main.py:753 | every row the scan added is such a successor, even when the walk was cut short |
| Scheduler.OneShotsMembers | main.py:759-782 | the rows announced are exactly the walked due one-shot rows |
| Scheduler.ScanAnnounces | main.py:759-782 | when nothing was raised, each undone due one-shot row gets its message, with its attachments |
| Scheduler.ScanAnnouncesOnlyOneShots | main.py:747-758 | every message announces an undone due one-shot row; a recurring row never gets one (`continue`) |
| Scheduler.ScanKeepsOtherState | main.py:741-782 | the scan never removes or rewrites an attachment table, nor touches another user's table |
| Scheduler.RecurCopiesToNextId | main.py:753-756 | the attachments go to the table of id `reminder[0] + 1`, while the successor takes the counter's next id; no other attachment table appears |
| Scheduler.SuccessorMissesAttachments | main.py:753-756 | an instance where the successor (id 4) has no attachment table and reminder 2 gets the copy |
| Scheduler.ScanJamsOnSuccessor | main.py:753-761 | in a table in which such a successor (id 4) is due, followed by an undone row, the successor makes every scan raise: it is one-shot with the attachment flag but has no attachment table, so it is never marked done and the undone row after it is never announced |
| Conversation.EndCommandHandler | main.py:704-721 | resets `flag` and `ind`; the store ends as `EndCommand` says, including the raise of a failing copy |
| Conversation.EndCommand | main.py:704-721 | "end" never drops a table, never rewrites an attachment list that existed, and never touches another user's table; without a reminder table it raises and changes nothing |
| Conversation.EndCommandReadsLastRow | main.py:711-713 | the reminder "end" acts on is the table's last row |
| Conversation.EndCommandCopiesLatest | main.py:711-721 | when that row has `period` set, "end" appends a copy of it under the next id (same description, date, attachment and period flags; done 0, periodic_time '0 0 0'), copies its attachments to id + 1 when its flag is 1, and touches no other table |
| Conversation.EndCommandWithoutPeriod | main.py:711-715 | with an empty table or a latest row without `period`, "end" changes nothing |
| Conversation.EndCommandCopyTarget | main.py:718-721 | the copy gets the attachments only when the latest row holds the last id ever issued; otherwise its id has no attachment table |
| Conversation.AskPeriodicInterval | main.py:450-470 | a reply is refused (re-prompt), raises OverflowError, or stores the text with `period = 1` on the given id, or on the latest reminder when none is given |
| Conversation.PeriodicReply | main.py:450-470 | a reply re-prompts exactly when the validator refuses it; it raises exactly on a `timedelta` overflow, or on a missing table when the latest reminder has to be looked up; a reply that is not recorded changes nothing, and no reply touches an attachment list |
| Conversation.PeriodicReplyRecurs | main.py:450-466 | an accepted reply for a reminder sets its `period` to 1 and its `periodic_time` to the text, which is then recurring with the positive period the reply gave |
| Conversation.AcceptedIntervalRecurs | main.py:453-459 | an accepted text is never '0 0 0', and the scan's parse of it yields its positive period |
| Conversation.RetryForgetsReminder | main.py:468-470 | after one refused reply, the next accepted reply goes to the latest reminder, not to the id given |
| Conversation.ProcessEditTime | main.py:285-306 | a reply that `validate_time_format` refuses re-prompts; `update_date` raises when the user has no table; otherwise the date becomes that time of the chosen day |
| Conversation.EditTime | main.py:285-306 | the reply re-prompts exactly when the time is refused, raises exactly when the time is accepted and the user has no table, and changes nothing unless it is recorded |
| Conversation.EditTimeWithinDay | main.py:285-306 | an accepted time `h:m` sets the reminder's date to exactly `h` hours and `m` minutes after the chosen day's midnight, which stays within that day, and changes no other column |
| Conversation.CompletedListOrder | main.py:309-314 | the list holds exactly the done rows, each as often as in the table, latest date first, rows of one date in table order |

## Left out

- Telegram: messages, keyboards, the calendar widget and the chaining of
  `register_next_step_handler` are transport. The interval dialogue models
  only the re-registration without the id. Messages sent by the scan are
  returned, not delivered.
- Google Drive and local files are left out: upload, download, the remote
  delete, and the temporary file `check_reminders` writes and removes. Remote
  deletes are returned as a list of file references. A failing download or
  send in the scan is not modelled.
- SQLite connections and commits are left out. Each statement is atomic,
  and a function's statements take effect in order up to the first one that
  raises. So the DROP TABLE in `delete_reminder` (main.py:229-238), and the
  remote deletes before it, stay when the DELETE after it raises
  (`Database.DeleteReminderCascades`). The only failure modelled is the "no such table" error.
- The `schedule`/`threading` job runner and `start_bot_polling`. Concurrent
  runs of the scan are not modelled.
- Dates are whole minutes, not `"%Y-%m-%d %H:%M"` strings. The `strptime`
  and `strftime` round trip, the `datetime` year range and seconds in `now`
  are not modelled.
- Python's `\d` and `int()` also accept non-ASCII digits, and `int()` accepts
  underscores and surrounding whitespace. Only ASCII digits are modelled.
- `only_edit` and `ask_attachment` after an accepted interval only change the
  dialogue. `add_attachment_handler`, `handle_document` and the setters of
  `flag` and `ind` are not part of this model. Only the reset that
  `end_command_handler` performs is modelled.
- `get_last_reminder_id` (main.py:537-545) is not part of this model.
- Scheduler.AdvanceRow, Conversation.EndCommandHandler: the results of
  `update_date` and `add_to_database` are not inspected. The scan has just
  read the table and "end" has just looked up the latest reminder, so these
  calls cannot fail.
- Conversation.AskPeriodicInterval: with an id given, nothing is read first.
  `update_periodic_info` catches its own sqlite error and returns False on a
  missing table (main.py:482-484). The handler ignores that result, and so
  does the model.
- Scheduler.ScanAnnounces: the documents of a notice are stated only when the
  row had an attachment table, or had its flag clear, before the walk. A row
  with the flag set whose table was created during the same walk, by the
  id + 1 copy of an earlier recurring row (main.py:753-756), is announced
  with that copy's rows. The model computes this, but no lemma states it.
- `handle_upload` (main.py:494-497) has the same "end" filter as
  `end_command_handler` and is registered before it (main.py:704). The
  model assumes "end" reaches `end_command_handler`. Whether the bot
  library passes the message on to a second matching handler cannot be
  decided from `main.py` alone.
- Conversation.ProcessEditTime: `value_new` (the day chosen in the calendar)
  is the parameter `day`, in minutes since the epoch at that day's midnight.
  In the source, `value_new` is one global shared by all users. It is `None`
  until some user picks a date (main.py:24, main.py:383), and it is read
  only when the time reply arrives (main.py:282). The time prompt is sent
  right after the calendar (main.py:274-276). So the stored date can be
  "None HH:MM" or another user's day. The parameter `day` cannot express
  either case.
