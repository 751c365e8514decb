/**
 * The conversation handlers whose effect on the database is more than one
 * statement: `end_command_handler` (and the `flag`/`ind` globals it resets),
 * the reply to the interval prompt of `ask_periodic_interval`, the reply to
 * the time prompt when a reminder's date is edited, and the order of the
 * completed-reminders list.
 */
module Conversation {
  import opened Wrappers
  import opened Records
  import opened Database
  import Ordering
  import Validators

  /**
   * The process-wide globals of the attachment dialogue: `flag` (incoming
   * files are being collected) and `ind` (the reminder they go to; None
   * means the latest one).
   */
  class Session {
    var collecting: bool
    var target: Option<int>

    constructor ()
      ensures !collecting && target == None
    {
      collecting := false;
      target := None;
    }
  }

  /** The database after a handler, and whether an exception escaped it. */
  datatype Outcome = Outcome(db: Db, raised: bool)

  // ---------------------------------------------------------------------------
  // end_command_handler
  // ---------------------------------------------------------------------------

  /**
   * What "end" does to the database: when the latest reminder has its
   * `period` flag set, a copy of it (same description, date, attachment flag
   * and period flag) is added, and when it has attachments these are copied
   * to reminder id + 1. Nothing is ever removed: no table disappears, no
   * attachment list that existed is rewritten, and no other user's table
   * changes.
   */
  function EndCommand(db: Db, user: UserId): (o: Outcome)
    ensures o.db.tables.Keys == db.tables.Keys
    ensures forall u :: u in db.tables && u != user ==> o.db.tables[u] == db.tables[u]
    ensures forall k :: k in db.files ==> k in o.db.files && o.db.files[k] == db.files[k]
    ensures user !in db.tables ==> o == Outcome(db, true)
  {
    match db.LatestId(user)
    case NoSuchTable => Outcome(db, true)
    case Fetched(latest) =>
      if latest.None? || latest.value == 0 then Outcome(db, false)
      else
        var id := latest.value;
        match db.Info(user, id)
        case NoSuchTable => Outcome(db, true)
        case Fetched(info) =>
          if info.None? || info.value.period == 0 then Outcome(db, false)
          else
            var x := info.value;
            var d := db.Insert(user, x.description, x.date, x.attachmentFolder, x.period);
            var from, to := FileKey(user, id), FileKey(user, id + 1);
            if x.attachmentFolder == 1 then Outcome(d.CopyFiles(from, to), d.CopyFails(from, to))
            else Outcome(d, false)
  }

  /** `end_command_handler`: stop collecting files, then act on the latest reminder. */
  method EndCommandHandler(session: Session, store: Store, user: UserId) returns (raised: bool)
    requires store.Valid()
    modifies session, store
    ensures !session.collecting && session.target == None
    ensures store.Valid()
    ensures Outcome(store.Snapshot(), raised) == EndCommand(old(store.Snapshot()), user)
  {
    session.target := None;
    session.collecting := false;
    var latest := store.GetLatestReminderId(user);
    if latest.NoSuchTable? {
      return true;
    }
    if latest.value.None? || latest.value.value == 0 {
      return false;
    }
    var id := latest.value.value;
    var info := store.GetReminderInfo(user, id);
    if info.NoSuchTable? {
      return true;
    }
    if info.value.None? || info.value.value.period == 0 {
      return false;
    }
    var x := info.value.value;
    var _ := store.AddToDatabase(user, x.description, x.date, x.attachmentFolder, x.period);
    raised := false;
    if x.attachmentFolder == 1 {
      var copied := store.CopyAttachments(FileKey(user, id), FileKey(user, id + 1));
      raised := !copied;
    }
  }

  /** The reminder "end" acts on is the last row of the table. */
  lemma EndCommandReadsLastRow(db: Db, user: UserId)
    requires db.Valid() && user in db.tables && db.tables[user].rows != []
    ensures var rows := db.tables[user].rows;
      var x := rows[|rows| - 1];
      db.LatestId(user) == Fetched(Some(x.id)) && x.id != 0 && db.Info(user, x.id) == Fetched(Some(x))
  {
    var t := db.tables[user];
    assert TableValid(t);
    var x := t.rows[|t.rows| - 1];
    MaxIdIsLast(t.rows);
    assert x in t.rows;
    FindUnique(t.rows, x.id, x);
  }

  /**
   * When the latest reminder has its period flag set, "end" appends a copy of
   * it under the next id, with `done` and `periodic_time` at their defaults,
   * and raises only when neither attachment table of the copy exists.
   */
  lemma EndCommandCopiesLatest(db: Db, user: UserId)
    requires db.Valid() && user in db.tables && db.tables[user].rows != []
    requires var rows := db.tables[user].rows; rows[|rows| - 1].period != 0
    ensures var t := db.tables[user];
      var x := t.rows[|t.rows| - 1];
      var o := EndCommand(db, user);
      var from, to := FileKey(user, x.id), FileKey(user, x.id + 1);
      && user in o.db.tables
      && o.db.tables[user] == Table(t.rows + [Reminder(t.lastId + 1, x.description, x.date, x.attachmentFolder, 0, x.period, DefaultPeriodicTime)], t.lastId + 1)
      && (forall u :: u in db.tables && u != user ==> u in o.db.tables && o.db.tables[u] == db.tables[u])
      && o.db.files == (if x.attachmentFolder == 1 then db.CopyFiles(from, to).files else db.files)
      && o.raised == (x.attachmentFolder == 1 && db.CopyFails(from, to))
  {
    EndCommandReadsLastRow(db, user);
  }

  /** When the table is empty or its latest reminder is not periodic, "end" changes nothing. */
  lemma EndCommandWithoutPeriod(db: Db, user: UserId)
    requires db.Valid() && user in db.tables
    requires var rows := db.tables[user].rows; rows == [] || rows[|rows| - 1].period == 0
    ensures EndCommand(db, user) == Outcome(db, false)
  {
    if db.tables[user].rows != [] {
      EndCommandReadsLastRow(db, user);
    }
  }

  /**
   * The attachments go to the copy only when the latest reminder holds the
   * last id ever issued. When a newer reminder was deleted, the copy's id is
   * above `id + 1` and it gets no attachment table.
   */
  lemma EndCommandCopyTarget(db: Db, user: UserId)
    requires db.Valid() && user in db.tables && db.tables[user].rows != []
    requires var rows := db.tables[user].rows; rows[|rows| - 1].period != 0 && rows[|rows| - 1].attachmentFolder == 1
    requires FileKey(user, db.tables[user].lastId + 1) !in db.files
    ensures var t := db.tables[user];
      var x := t.rows[|t.rows| - 1];
      var o := EndCommand(db, user);
      && (x.id == t.lastId && FileKey(user, x.id) in db.files ==>
            o.db.files[FileKey(user, t.lastId + 1)] == db.files[FileKey(user, x.id)])
      && (x.id != t.lastId ==> FileKey(user, t.lastId + 1) !in o.db.files)
  {
    EndCommandReadsLastRow(db, user);
    var t := db.tables[user];
    var x := t.rows[|t.rows| - 1];
    assert x in t.rows;
  }

  // ---------------------------------------------------------------------------
  // ask_periodic_interval
  // ---------------------------------------------------------------------------

  /**
   * How a reply to the interval prompt ends: Retry re-prompts (and the next
   * reply is handled without the reminder id the first one had), Recorded
   * stored the interval, Raised let an exception escape.
   */
  datatype Reply = Retry | Recorded | Raised

  datatype ReplyOutcome = ReplyOutcome(db: Db, reply: Reply)

  /**
   * `ask_periodic_interval(message, id)`: a valid interval is stored, with the
   * period flag set, on reminder `id`, or on the latest reminder when no id
   * was given (an empty table: the UPDATE matches no row).
   */
  function PeriodicReply(db: Db, user: UserId, text: string, id: Option<int>): (o: ReplyOutcome)
    ensures o.reply == Retry <==> Validators.ParseInterval(text).Rejected?
    ensures o.reply == Raised <==>
      Validators.ParseInterval(text).TooLong? || (Validators.ParseInterval(text).Accepted? && id.None? && user !in db.tables)
    ensures o.reply != Recorded ==> o.db == db
    ensures o.db.files == db.files && o.db.tables.Keys == db.tables.Keys
  {
    match Validators.ParseInterval(text)
    case Rejected => ReplyOutcome(db, Retry)
    case TooLong => ReplyOutcome(db, Raised)
    case Accepted(_, _, _) =>
      var target: Fetched<Option<int>> := if id.Some? then Fetched(id) else db.LatestId(user);
      match target
      case NoSuchTable => ReplyOutcome(db, Raised)
      case Fetched(None) => ReplyOutcome(db, Recorded)
      case Fetched(Some(rid)) => ReplyOutcome(db.Update(user, rid, SetPeriodic(text, 1)), Recorded)
  }

  method AskPeriodicInterval(store: Store, user: UserId, text: string, id: Option<int>) returns (reply: Reply)
    requires store.Valid()
    modifies store
    ensures store.Valid()
    ensures ReplyOutcome(store.Snapshot(), reply) == PeriodicReply(old(store.Snapshot()), user, text, id)
  {
    var parsed := Validators.ParseInterval(text);
    if parsed.Rejected? {
      return Retry;
    }
    if parsed.TooLong? {
      return Raised;
    }
    var target := id;
    if id.None? {
      var latest := store.GetLatestReminderId(user);
      if latest.NoSuchTable? {
        return Raised;
      }
      target := latest.value;
    }
    if target.Some? {
      // update_periodic_info catches the sqlite error itself; its result is ignored.
      var _ := store.UpdatePeriodicInfo(user, target.value, text, 1);
    }
    reply := Recorded;
  }

  /** The replies of one interval dialogue: after a Retry the handler is registered again without the id. */
  function IntervalDialogue(db: Db, user: UserId, replies: seq<string>, id: Option<int>): ReplyOutcome
    decreases |replies|
  {
    if replies == [] then ReplyOutcome(db, Retry)
    else
      var o := PeriodicReply(db, user, replies[0], id);
      if o.reply == Retry then IntervalDialogue(o.db, user, replies[1..], None) else o
  }

  /**
   * An accepted interval makes the reminder recurring: the stored text is not
   * the default, the period flag is set, and the scan reads back exactly the
   * positive number of minutes the reply gave.
   */
  lemma PeriodicReplyRecurs(db: Db, user: UserId, text: string, x: Reminder)
    requires db.Valid() && user in db.tables && x in db.tables[user].rows
    requires Validators.ParseInterval(text).Accepted?
    ensures PeriodicReply(db, user, text, Some(x.id)).reply == Recorded
    ensures var d := PeriodicReply(db, user, text, Some(x.id)).db;
      user in d.tables && Find(d.tables[user].rows, x.id) == Some(x.(period := 1, periodicTime := text))
    ensures text != DefaultPeriodicTime
    ensures var r := Validators.ParseInterval(text);
      && Validators.StoredPeriod(text) == Some(Validators.Minutes(r.days, r.hours, r.minutes))
      && Validators.Minutes(r.days, r.hours, r.minutes) > 0
  {
    assert Apply(x, SetPeriodic(text, 1)) == x.(period := 1, periodicTime := text);
    UpdateSetsRow(db, user, x, SetPeriodic(text, 1));
    PeriodicReplyAccepted(db, user, text, x.id);
    AcceptedIntervalRecurs(text);
  }

  /** An accepted interval for a known reminder is stored on that reminder. */
  lemma PeriodicReplyAccepted(db: Db, user: UserId, text: string, id: int)
    requires Validators.ParseInterval(text).Accepted?
    ensures PeriodicReply(db, user, text, Some(id)) == ReplyOutcome(db.Update(user, id, SetPeriodic(text, 1)), Recorded)
  {
  }

  /** An UPDATE by id on a row of a valid table makes that row its changed value. */
  lemma UpdateSetsRow(db: Db, user: UserId, x: Reminder, c: Change)
    requires db.Valid() && user in db.tables && x in db.tables[user].rows
    ensures var d := db.Update(user, x.id, c);
      user in d.tables && Find(d.tables[user].rows, x.id) == Some(Apply(x, c))
  {
    var t := db.tables[user];
    assert TableValid(t);
    FindUnique(t.rows, x.id, x);
    UpdateChangesRow(t.rows, x.id, c);
  }

  /** An accepted interval text is not the default "0 0 0", and the scan reads back its positive number of minutes. */
  lemma AcceptedIntervalRecurs(text: string)
    requires Validators.ParseInterval(text).Accepted?
    ensures var r := Validators.ParseInterval(text);
      && text != DefaultPeriodicTime
      && Validators.StoredPeriod(text) == Some(Validators.Minutes(r.days, r.hours, r.minutes))
      && Validators.Minutes(r.days, r.hours, r.minutes) > 0
  {
    Validators.AcceptedPeriod(text);
    Validators.IntervalRefusesAllZero();
  }

  /** A reply that is not three numbers, or is all zeros, changes nothing and re-prompts. */
  lemma PeriodicReplyRetries(db: Db, user: UserId, text: string, id: Option<int>)
    requires Validators.ParseInterval(text) == Validators.Rejected
    ensures PeriodicReply(db, user, text, id) == ReplyOutcome(db, Retry)
  {
  }

  /**
   * A dialogue started for reminder `id` whose first reply is refused stores
   * the second reply on the latest reminder, not on `id`.
   */
  lemma RetryForgetsReminder(db: Db, user: UserId, id: int, first: string, second: string)
    requires db.Valid() && user in db.tables && db.tables[user].rows != []
    requires Validators.ParseInterval(first) == Validators.Rejected && Validators.ParseInterval(second).Accepted?
    ensures var rows := db.tables[user].rows;
      IntervalDialogue(db, user, [first, second], Some(id)) == PeriodicReply(db, user, second, Some(rows[|rows| - 1].id))
  {
    var rows := db.tables[user].rows;
    assert [first, second][1..] == [second];
    assert [second][1..] == [];
    EndCommandReadsLastRow(db, user);
  }

  // ---------------------------------------------------------------------------
  // Editing a reminder's time: process_edit_date1 / process_edit_time
  // ---------------------------------------------------------------------------

  /**
   * The reply to the time prompt: an `HH:MM` text sets the reminder's date to
   * that time of the chosen day (`day` is its midnight, in minutes); any other
   * text re-prompts; `update_date` raises when the user has no table.
   */
  function EditTime(db: Db, user: UserId, id: int, day: int, text: string): (o: ReplyOutcome)
    ensures o.reply == Retry <==> !Validators.ValidateTimeFormat(text)
    ensures o.reply == Raised <==> Validators.ValidateTimeFormat(text) && user !in db.tables
    ensures o.reply != Recorded ==> o.db == db
    ensures o.db.files == db.files && o.db.tables.Keys == db.tables.Keys
  {
    match Validators.ParseClock(text)
    case None => ReplyOutcome(db, Retry)
    case Some((h, m)) =>
      if user !in db.tables then ReplyOutcome(db, Raised)
      else ReplyOutcome(db.Update(user, id, SetDate(day + h * 60 + m)), Recorded)
  }

  method ProcessEditTime(store: Store, user: UserId, id: int, day: int, text: string) returns (reply: Reply)
    requires store.Valid()
    modifies store
    ensures store.Valid()
    ensures ReplyOutcome(store.Snapshot(), reply) == EditTime(old(store.Snapshot()), user, id, day, text)
  {
    if !Validators.ValidateTimeFormat(text) {
      return Retry;
    }
    var (h, m) := Validators.ParseClock(text).value;
    var ok := store.UpdateDate(user, id, day + h * 60 + m);
    if !ok {
      return Raised;
    }
    reply := Recorded;
  }

  /**
   * An accepted time `h:m` sets the reminder's date to exactly that time of the
   * chosen day, which stays within the day, and changes no other column.
   */
  lemma EditTimeWithinDay(db: Db, user: UserId, day: int, text: string, h: nat, m: nat, x: Reminder)
    requires db.Valid() && user in db.tables && x in db.tables[user].rows
    requires Validators.ClockText(text, h, m)
    ensures var o := EditTime(db, user, x.id, day, text);
      && o.reply == Recorded && user in o.db.tables
      && Find(o.db.tables[user].rows, x.id) == Some(x.(date := day + 60 * h + m))
    ensures day <= day + 60 * h + m < day + 1440
  {
    Validators.ParseClockIff(text, h, m);
    Validators.ParseClockBounded(text);
    var o := EditTime(db, user, x.id, day, text);
    assert o == ReplyOutcome(db.Update(user, x.id, SetDate(day + h * 60 + m)), Recorded);
    UpdateSetsRow(db, user, x, SetDate(day + h * 60 + m));
  }

  // ---------------------------------------------------------------------------
  // show_completed_reminders
  // ---------------------------------------------------------------------------

  /** The completed reminders in the order they are listed: latest date first. */
  function CompletedList(db: Db, user: UserId): Fetched<seq<Reminder>>
  {
    match db.Rows(user, true)
    case NoSuchTable => NoSuchTable
    case Fetched(rows) => Fetched(Ordering.LatestFirst(rows))
  }

  /**
   * The list holds exactly the done rows, each as often as in the table,
   * latest date first, and rows of the same date in table order.
   */
  lemma CompletedListOrder(db: Db, user: UserId)
    requires user in db.tables
    ensures var l := CompletedList(db, user);
      var done := WithDone(db.tables[user].rows, 1);
      && l.Fetched?
      && Ordering.DatesDescending(l.value)
      && multiset(l.value) == multiset(done)
      && (forall x :: x in l.value <==> x in db.tables[user].rows && x.done == 1)
      && (forall d :: Ordering.OnDate(l.value, d) == Ordering.OnDate(done, d))
  {
    var done := WithDone(db.tables[user].rows, 1);
    var l := Ordering.LatestFirst(done);
    Ordering.LatestFirstDescending(done);
    Ordering.LatestFirstPermutes(done);
    forall x ensures x in l <==> x in done {
      assert x in l <==> x in multiset(l);
      assert x in done <==> x in multiset(done);
    }
    forall d ensures Ordering.OnDate(l, d) == Ordering.OnDate(done, d) {
      Ordering.LatestFirstStable(done, d);
    }
  }
}
