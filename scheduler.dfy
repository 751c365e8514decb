/**
 * `check_reminders`, the job the scheduler runs for each user: it reads the
 * user's undone rows once, then walks them in table order. A due recurring
 * row has its date moved on by its period and gets a successor row (and a
 * copy of its attachment table); a due one-shot row is announced, with its
 * attachments, and marked done. An exception ends the walk where it is
 * raised; what was committed before stays.
 */
module Scheduler {
  import opened Wrappers
  import opened Records
  import opened Database
  import Validators

  /** One `send_message` with `text`, followed by one `send_document` per attachment, in order. */
  datatype Notice = Notice(chat: UserId, text: string, documents: seq<Attachment>)

  /** The lines "\n<file_name>" appended per attachment, in table order. */
  function AttachmentLines(fs: seq<Attachment>): string
  {
    if fs == [] then "" else AttachmentLines(fs[..|fs| - 1]) + "\n" + fs[|fs| - 1].fileName
  }

  /** The announcement: "Reminder: <description>", then the attachment names when there are any. */
  function NoticeText(description: string, fs: seq<Attachment>): string
  {
    "Reminder: " + description + (if fs == [] then "" else "\nAttachments:" + AttachmentLines(fs))
  }

  /** A row counts as recurring when `period` is set and `periodic_time` is not the column default. */
  predicate IsRecurring(r: Reminder)
  {
    r.period != 0 && r.periodicTime != DefaultPeriodicTime
  }

  /** `current_time >= reminder_time`, both in whole minutes. */
  predicate IsDue(r: Reminder, now: int)
  {
    now >= r.date
  }

  /** The state of the walk: the database, the notices sent so far, and whether an exception ended it. */
  datatype Tick = Tick(db: Db, sent: seq<Notice>, aborted: bool)

  /**
   * The body of the loop for a due row `r` of the snapshot. A stored
   * interval that does not parse (or overflows `timedelta`), a failing copy
   * of the attachment table, and a missing attachment table for a one-shot
   * row raise.
   */
  function Fire(t: Tick, user: UserId, r: Reminder): Tick
  {
    if IsRecurring(r) then
      match Validators.StoredPeriod(r.periodicTime)
      case None => t.(aborted := true)
      case Some(p) => Recur(t, user, r, p)
    else
      var fetched := if r.attachmentFolder != 0 then t.db.FilesOf(FileKey(user, r.id)) else Fetched([]);
      match fetched
      case NoSuchTable => t.(aborted := true)
      case Fetched(docs) =>
        Tick(t.db.Update(user, r.id, SetDone(1)), t.sent + [Notice(user, NoticeText(r.description, docs), docs)], false)
  }

  /** A due recurring row with period `p` minutes: `update_date`, `add_to_database`, then `copy_attachments` to id + 1. */
  function Recur(t: Tick, user: UserId, r: Reminder, p: int): Tick
  {
    var db := Advanced(t.db, user, r, p);
    var from, to := FileKey(user, r.id), FileKey(user, r.id + 1);
    if r.attachmentFolder == 1 then Tick(db.CopyFiles(from, to), t.sent, db.CopyFails(from, to))
    else Tick(db, t.sent, false)
  }

  function Advanced(db: Db, user: UserId, r: Reminder, p: int): Db
  {
    db.Update(user, r.id, SetDate(r.date + p)).Insert(user, r.description, r.date + p, r.attachmentFolder, r.period)
  }

  /** One turn of the loop: nothing happens after an exception or for a row not yet due. */
  function Step(t: Tick, user: UserId, now: int, r: Reminder): Tick
  {
    if t.aborted || !IsDue(r, now) then t else Fire(t, user, r)
  }

  /** The walk over the first rows of the snapshot. */
  function ScanPrefix(t: Tick, user: UserId, now: int, rows: seq<Reminder>): Tick
  {
    if rows == [] then t
    else Step(ScanPrefix(t, user, now, rows[..|rows| - 1]), user, now, rows[|rows| - 1])
  }

  /** `check_reminders(user)` at minute `now`; reading the rows of a missing table raises at once. */
  function Scan(db: Db, user: UserId, now: int): Tick
  {
    match db.Rows(user, false)
    case NoSuchTable => Tick(db, [], true)
    case Fetched(rows) => ScanPrefix(Tick(db, [], false), user, now, rows)
  }

  /** Walking one more row of the snapshot is one more `Step`. */
  lemma PrefixStep(t: Tick, user: UserId, now: int, rows: seq<Reminder>, i: nat)
    requires i < |rows|
    ensures ScanPrefix(t, user, now, rows[..i + 1]) == Step(ScanPrefix(t, user, now, rows[..i]), user, now, rows[i])
  {
    assert rows[..i + 1][..i] == rows[..i];
  }

  /** Once an exception is raised, the rest of the rows change nothing. */
  lemma {:induction false} AbortSticks(t: Tick, user: UserId, now: int, rows: seq<Reminder>, n: nat)
    requires n <= |rows| && ScanPrefix(t, user, now, rows[..n]).aborted
    ensures ScanPrefix(t, user, now, rows) == ScanPrefix(t, user, now, rows[..n])
    decreases |rows|
  {
    if n < |rows| {
      var m := |rows| - 1;
      assert rows[..m][..n] == rows[..n];
      AbortSticks(t, user, now, rows[..m], n);
    } else {
      assert rows[..n] == rows;
    }
  }

  /**
   * `check_reminders`: the walk over the undone rows. `aborted` is true when
   * an exception escaped; the store then keeps what was done before it.
   */
  method CheckReminders(store: Store, user: UserId, now: int) returns (sent: seq<Notice>, aborted: bool)
    requires store.Valid()
    modifies store
    ensures store.Valid()
    ensures Tick(store.Snapshot(), sent, aborted) == Scan(old(store.Snapshot()), user, now)
  {
    ghost var db0 := store.Snapshot();
    sent, aborted := [], false;
    var fetched := store.GetUserReminders(user, false);
    if fetched.NoSuchTable? {
      aborted := true;
      return;
    }
    var rows := fetched.value;
    var i := 0;
    while i < |rows| && !aborted
      invariant 0 <= i <= |rows|
      invariant store.Valid()
      invariant Tick(store.Snapshot(), sent, aborted) == ScanPrefix(Tick(db0, [], false), user, now, rows[..i])
    {
      PrefixStep(Tick(db0, [], false), user, now, rows, i);
      sent, aborted := WalkRow(store, user, now, rows[i], sent);
      i := i + 1;
    }
    if i < |rows| {
      AbortSticks(Tick(db0, [], false), user, now, rows, i);
    } else {
      assert rows[..i] == rows;
    }
  }

  /** One turn of the loop, from a state where no exception was raised yet. */
  method WalkRow(store: Store, user: UserId, now: int, r: Reminder, sent0: seq<Notice>) returns (sent: seq<Notice>, aborted: bool)
    requires store.Valid()
    modifies store
    ensures store.Valid()
    ensures Tick(store.Snapshot(), sent, aborted) == Step(Tick(old(store.Snapshot()), sent0, false), user, now, r)
  {
    sent, aborted := sent0, false;
    if now >= r.date {
      sent, aborted := FireRow(store, user, r, sent0);
    }
  }

  /** The body of the loop for a due row. */
  method FireRow(store: Store, user: UserId, r: Reminder, sent0: seq<Notice>) returns (sent: seq<Notice>, aborted: bool)
    requires store.Valid()
    modifies store
    ensures store.Valid()
    ensures Tick(store.Snapshot(), sent, aborted) == Fire(Tick(old(store.Snapshot()), sent0, false), user, r)
  {
    if r.period != 0 && r.periodicTime != DefaultPeriodicTime {
      var period := Validators.StoredPeriod(r.periodicTime);
      if period.None? {
        return sent0, true;
      }
      sent := sent0;
      aborted := AdvanceRow(store, user, r, period.value, sent0);
    } else {
      sent, aborted := AnnounceRow(store, user, r, sent0);
    }
  }

  /** A due recurring row with period `p`: move its date on, add the successor row, copy the attachment table. */
  method AdvanceRow(store: Store, user: UserId, r: Reminder, p: int, ghost sent0: seq<Notice>) returns (aborted: bool)
    requires store.Valid()
    modifies store
    ensures store.Valid()
    ensures Tick(store.Snapshot(), sent0, aborted) == Recur(Tick(old(store.Snapshot()), sent0, false), user, r, p)
  {
    ghost var d0 := store.Snapshot();
    var time := r.date + p;
    // The table exists (its rows were just read), so these succeed.
    var _ := store.UpdateDate(user, r.id, time);
    var _ := store.AddToDatabase(user, r.description, time, r.attachmentFolder, r.period);
    assert store.Snapshot() == Advanced(d0, user, r, p);
    aborted := false;
    if r.attachmentFolder == 1 {
      var copied := store.CopyAttachments(FileKey(user, r.id), FileKey(user, r.id + 1));
      aborted := !copied;
    }
  }

  /** A due one-shot row: announce it with its attachments and mark it done. */
  method AnnounceRow(store: Store, user: UserId, r: Reminder, sent0: seq<Notice>) returns (sent: seq<Notice>, aborted: bool)
    requires store.Valid() && !IsRecurring(r)
    modifies store
    ensures store.Valid()
    ensures Tick(store.Snapshot(), sent, aborted) == Fire(Tick(old(store.Snapshot()), sent0, false), user, r)
  {
    var docs: seq<Attachment> := [];
    if r.attachmentFolder != 0 {
      var info := store.GetAllFilesInfoFromDatabase(FileKey(user, r.id));
      if info.NoSuchTable? {
        return sent0, true;
      }
      docs := info.value;
    }
    var text := Announce(r.description, docs);
    sent := sent0 + [Notice(user, text, docs)];
    aborted := false;
    var _ := store.MarkAs(user, r.id, 1);
  }

  /** The message text `check_reminders` builds line by line. */
  method Announce(description: string, fs: seq<Attachment>) returns (text: string)
    ensures text == NoticeText(description, fs)
  {
    text := "Reminder: " + description;
    if fs != [] {
      text := text + "\nAttachments:";
      var j := 0;
      while j < |fs|
        invariant 0 <= j <= |fs|
        invariant text == "Reminder: " + description + "\nAttachments:" + AttachmentLines(fs[..j])
      {
        assert fs[..j + 1][..j] == fs[..j];
        text := text + "\n" + fs[j].fileName;
        j := j + 1;
      }
      assert fs[..j] == fs;
    }
  }

  /** What a due row of the snapshot becomes: a recurring one moved on by its period, a one-shot one done. */
  function Settled(r: Reminder): (r': Reminder)
    ensures r'.id == r.id
  {
    if !IsRecurring(r) then r.(done := 1)
    else match Validators.StoredPeriod(r.periodicTime)
      case Some(p) => r.(date := r.date + p)
      case None => r
  }

  /** The row `add_to_database` appends for recurring row `r`, under the id `id` it is given. */
  function Successor(r: Reminder, id: int): Reminder
  {
    Reminder(id, r.description, Settled(r).date, r.attachmentFolder, 0, r.period, DefaultPeriodicTime)
  }

  /** A row of the table after the rows `done` of the snapshot were walked. */
  function Settle(x: Reminder, done: seq<Reminder>, now: int): (x': Reminder)
    ensures x'.id == x.id
  {
    if x in done && IsDue(x, now) then Settled(x) else x
  }

  function SettleAll(rows: seq<Reminder>, done: seq<Reminder>, now: int): (r: seq<Reminder>)
    ensures |r| == |rows|
  {
    if rows == [] then [] else [Settle(rows[0], done, now)] + SettleAll(rows[1..], done, now)
  }

  lemma {:induction false} SettleAllAt(rows: seq<Reminder>, done: seq<Reminder>, now: int)
    ensures forall i :: 0 <= i < |rows| ==> SettleAll(rows, done, now)[i] == Settle(rows[i], done, now)
  {
    if rows != [] {
      SettleAllAt(rows[1..], done, now);
    }
  }

  /** The successor rows the walk over `done` appends, numbered on from `lastId`. */
  function Spawned(done: seq<Reminder>, now: int, lastId: int): (sp: seq<Reminder>)
    ensures |sp| <= |done|
  {
    if done == [] then []
    else
      var sp := Spawned(done[..|done| - 1], now, lastId);
      var r := done[|done| - 1];
      if IsDue(r, now) && IsRecurring(r) then sp + [Successor(r, lastId + |sp| + 1)] else sp
  }

  /** The successor rows carry the ids that follow `lastId`, one by one. */
  lemma {:induction false} SpawnedIds(done: seq<Reminder>, now: int, lastId: int)
    ensures forall i :: 0 <= i < |Spawned(done, now, lastId)| ==> Spawned(done, now, lastId)[i].id == lastId + 1 + i
  {
    if done != [] {
      var front := done[..|done| - 1];
      SpawnedIds(front, now, lastId);
      var sp := Spawned(front, now, lastId);
      var r := done[|done| - 1];
      if IsDue(r, now) && IsRecurring(r) {
        var sp' := sp + [Successor(r, lastId + |sp| + 1)];
        assert Spawned(done, now, lastId) == sp';
        assert forall i :: 0 <= i < |sp| ==> sp'[i] == sp[i];
      } else {
        assert Spawned(done, now, lastId) == sp;
      }
    }
  }

  /** The due one-shot rows among `done`, in order: the rows announced. */
  function OneShots(done: seq<Reminder>, now: int): (o: seq<Reminder>)
    ensures |o| <= |done|
  {
    if done == [] then []
    else
      var r := done[|done| - 1];
      OneShots(done[..|done| - 1], now) + (if IsDue(r, now) && !IsRecurring(r) then [r] else [])
  }

  /** Notice `n` announces row `r`, with the attachment list `r` had before the walk when it had one. */
  predicate NoticeFor(n: Notice, user: UserId, r: Reminder, files0: map<FileKey, seq<Attachment>>)
  {
    && n.chat == user
    && n.text == NoticeText(r.description, n.documents)
    && (r.attachmentFolder == 0 ==> n.documents == [])
    && (r.attachmentFolder != 0 && FileKey(user, r.id) in files0 ==> n.documents == files0[FileKey(user, r.id)])
  }

  /** The user's reminder table after the rows `done` of the snapshot were walked. */
  function Expected(db0: Db, user: UserId, now: int, done: seq<Reminder>): Table
    requires user in db0.tables
  {
    var t0 := db0.tables[user];
    var sp := Spawned(done, now, t0.lastId);
    Table(SettleAll(t0.rows, done, now) + sp, t0.lastId + |sp|)
  }

  /** Every other user's reminder table is as it was. */
  ghost predicate OthersKept(db: Db, db0: Db, user: UserId)
  {
    forall u :: u != user ==> (u in db.tables <==> u in db0.tables) && (u in db0.tables ==> db.tables[u] == db0.tables[u])
  }

  ghost predicate TablesAt(db: Db, db0: Db, user: UserId, now: int, done: seq<Reminder>)
    requires user in db0.tables
  {
    user in db.tables && db.tables[user] == Expected(db0, user, now, done) && OthersKept(db, db0, user)
  }

  /** Attachment tables are only ever added: the ones there before keep their rows. */
  ghost predicate FilesKept(db: Db, db0: Db)
  {
    forall k :: k in db0.files ==> k in db.files && db.files[k] == db0.files[k]
  }

  /** One notice per due one-shot row among `done`, in order. */
  ghost predicate NoticesAt(sent: seq<Notice>, db0: Db, user: UserId, now: int, done: seq<Reminder>)
  {
    var o := OneShots(done, now);
    |sent| == |o| && forall i :: 0 <= i < |sent| ==> NoticeFor(sent[i], user, o[i], db0.files)
  }

  /** The walk got past every due recurring row of `done` only because its interval parsed. */
  ghost predicate PeriodsParse(done: seq<Reminder>, now: int)
  {
    forall x :: x in done && IsDue(x, now) && IsRecurring(x) ==> Validators.StoredPeriod(x.periodicTime).Some?
  }

  /** The state after the rows `done` of the snapshot have been walked. */
  ghost predicate Reached(t: Tick, db0: Db, user: UserId, now: int, done: seq<Reminder>)
    requires user in db0.tables
  {
    TablesAt(t.db, db0, user, now, done) && FilesKept(t.db, db0)
    && NoticesAt(t.sent, db0, user, now, done) && PeriodsParse(done, now)
  }

  /** An UPDATE by id that gives a due, not yet walked row its settled value settles exactly that row. */
  lemma UpdateSettles(rows: seq<Reminder>, done: seq<Reminder>, sp: seq<Reminder>, lastId: int, now: int, r: Reminder, c: Change)
    requires IdsAscending(rows) && forall x :: x in rows ==> x.id <= lastId
    requires forall y :: y in sp ==> y.id > lastId
    requires r in rows && r !in done && IsDue(r, now) && Apply(r, c) == Settled(r)
    ensures UpdateWhere(SettleAll(rows, done, now) + sp, r.id, c) == SettleAll(rows, done + [r], now) + sp
  {
    var s0 := SettleAll(rows, done, now);
    var s1 := SettleAll(rows, done + [r], now);
    var a := s0 + sp;
    var b := s1 + sp;
    var u := UpdateWhere(a, r.id, c);
    SettleAllAt(rows, done, now);
    SettleAllAt(rows, done + [r], now);
    assert |u| == |b|;
    forall i | 0 <= i < |a| ensures u[i] == b[i] {
      if i < |rows| {
        assert a[i] == s0[i] == Settle(rows[i], done, now);
        assert b[i] == s1[i] == Settle(rows[i], done + [r], now);
        SettleOnce(rows, done, now, r, c, i);
      } else {
        assert a[i] == b[i] == sp[i - |rows|];
        assert sp[i - |rows|] in sp;
        assert r.id <= lastId;
      }
    }
  }

  /** Pointwise step of UpdateSettles: the UPDATE turns the old settled value of each row into the new one. */
  lemma SettleOnce(rows: seq<Reminder>, done: seq<Reminder>, now: int, r: Reminder, c: Change, i: int)
    requires IdsAscending(rows) && 0 <= i < |rows|
    requires r in rows && r !in done && IsDue(r, now) && Apply(r, c) == Settled(r)
    ensures var x := Settle(rows[i], done, now);
      (if x.id == r.id then Apply(x, c) else x) == Settle(rows[i], done + [r], now)
  {
    assert rows[i] in rows;
    if rows[i].id == r.id {
      AscendingIdsIdentify(rows, rows[i], r);
    }
  }

  lemma UpdateRowsReach(db: Db, db0: Db, user: UserId, now: int, done: seq<Reminder>, r: Reminder, c: Change)
    requires user in db0.tables && TableValid(db0.tables[user]) && TablesAt(db, db0, user, now, done)
    requires r in db0.tables[user].rows && r !in done && IsDue(r, now) && Apply(r, c) == Settled(r)
    ensures var t0 := db0.tables[user];
      UpdateWhere(db.tables[user].rows, r.id, c) == SettleAll(t0.rows, done + [r], now) + Spawned(done, now, t0.lastId)
  {
    var t0 := db0.tables[user];
    var sp := Spawned(done, now, t0.lastId);
    SpawnedIds(done, now, t0.lastId);
    forall y | y in sp ensures y.id > t0.lastId {
      var i :| 0 <= i < |sp| && sp[i] == y;
      assert sp[i].id == t0.lastId + 1 + i;
    }
    UpdateSettles(t0.rows, done, sp, t0.lastId, now, r, c);
  }

  /** The UPDATE of a due row, on tables reached over `done`, gives the tables reached over `done + [r]` but for the successor. */
  lemma UpdateReaches(db: Db, db0: Db, user: UserId, now: int, done: seq<Reminder>, r: Reminder, c: Change)
    requires user in db0.tables && TableValid(db0.tables[user]) && TablesAt(db, db0, user, now, done)
    requires r in db0.tables[user].rows && r !in done && IsDue(r, now) && Apply(r, c) == Settled(r)
    ensures var t0 := db0.tables[user];
      var sp := Spawned(done, now, t0.lastId);
      var d := db.Update(user, r.id, c);
      && user in d.tables
      && d.tables[user] == Table(SettleAll(t0.rows, done + [r], now) + sp, t0.lastId + |sp|)
      && OthersKept(d, db0, user)
  {
    UpdateRowsReach(db, db0, user, now, done, r, c);
  }

  /** Walking one more row appends its successor exactly when it is due and recurring. */
  lemma SpawnedPush(done: seq<Reminder>, now: int, lastId: int, r: Reminder)
    ensures var sp := Spawned(done, now, lastId);
      Spawned(done + [r], now, lastId) == if IsDue(r, now) && IsRecurring(r) then sp + [Successor(r, lastId + |sp| + 1)] else sp
  {
    var d := done + [r];
    assert d != [] && d[|d| - 1] == r && d[..|d| - 1] == done;
  }

  /** Walking one more row announces it exactly when it is due and one-shot. */
  lemma OneShotsPush(done: seq<Reminder>, now: int, r: Reminder)
    ensures OneShots(done + [r], now) == OneShots(done, now) + if IsDue(r, now) && !IsRecurring(r) then [r] else []
  {
    assert (done + [r])[..|done|] == done;
  }

  /** A recurring row whose interval parses to `p` minutes moves on by `p`; its successor carries the new date. */
  lemma SettledRecurring(r: Reminder, p: int, id: int)
    requires IsRecurring(r) && Validators.StoredPeriod(r.periodicTime) == Some(p)
    ensures Settled(r) == r.(date := r.date + p)
    ensures Successor(r, id) == Reminder(id, r.description, r.date + p, r.attachmentFolder, 0, r.period, DefaultPeriodicTime)
  {
  }

  /** `add_to_database` on a table reached so far appends one row with the next id. */
  lemma InsertOnto(d: Db, db0: Db, user: UserId, description: string, date: int, attachmentFolder: int, period: int,
                   rows: seq<Reminder>, lastId: int)
    requires user in d.tables && d.tables[user] == Table(rows, lastId) && OthersKept(d, db0, user)
    ensures var d' := d.Insert(user, description, date, attachmentFolder, period);
      && user in d'.tables
      && d'.tables[user] == Table(rows + [Reminder(lastId + 1, description, date, attachmentFolder, 0, period, DefaultPeriodicTime)], lastId + 1)
      && OthersKept(d', db0, user)
  {
  }

  /** A due recurring row whose interval parses to `p` minutes spawns a successor dated `p` minutes on, with the next id. */
  lemma SpawnedPastRecurring(done: seq<Reminder>, now: int, lastId: int, r: Reminder, p: int)
    requires IsDue(r, now) && IsRecurring(r) && Validators.StoredPeriod(r.periodicTime) == Some(p)
    ensures var sp := Spawned(done, now, lastId);
      Spawned(done + [r], now, lastId)
        == sp + [Reminder(lastId + |sp| + 1, r.description, r.date + p, r.attachmentFolder, 0, r.period, DefaultPeriodicTime)]
  {
    var sp := Spawned(done, now, lastId);
    SpawnedPushDue(done, now, lastId, r);
    SettledRecurring(r, p, lastId + |sp| + 1);
  }

  /** SpawnedPush for a due recurring row. */
  lemma SpawnedPushDue(done: seq<Reminder>, now: int, lastId: int, r: Reminder)
    requires IsDue(r, now) && IsRecurring(r)
    ensures var sp := Spawned(done, now, lastId);
      Spawned(done + [r], now, lastId) == sp + [Successor(r, lastId + |sp| + 1)]
  {
    var d := done + [r];
    assert d != [] && d[|d| - 1] == r && d[..|d| - 1] == done;
  }

  /** The table expected once a due recurring row with period `p` has been walked. */
  lemma ExpectedPastRecurring(db0: Db, user: UserId, now: int, done: seq<Reminder>, r: Reminder, p: int)
    requires user in db0.tables && IsDue(r, now) && IsRecurring(r) && Validators.StoredPeriod(r.periodicTime) == Some(p)
    ensures var t0 := db0.tables[user];
      var sp := Spawned(done, now, t0.lastId);
      var succ := Reminder(t0.lastId + |sp| + 1, r.description, r.date + p, r.attachmentFolder, 0, r.period, DefaultPeriodicTime);
      Expected(db0, user, now, done + [r]) == Table(SettleAll(t0.rows, done + [r], now) + sp + [succ], t0.lastId + |sp| + 1)
  {
    var t0 := db0.tables[user];
    var sp := Spawned(done, now, t0.lastId);
    var settled := SettleAll(t0.rows, done + [r], now);
    var succ := Reminder(t0.lastId + |sp| + 1, r.description, r.date + p, r.attachmentFolder, 0, r.period, DefaultPeriodicTime);
    var sp' := Spawned(done + [r], now, t0.lastId);
    SpawnedPastRecurring(done, now, t0.lastId, r, p);
    assert |sp'| == |sp| + 1;
    assert Expected(db0, user, now, done + [r]) == Table(settled + sp', t0.lastId + |sp'|);
    assert settled + sp' == settled + sp + [succ];
  }

  /** A due recurring row: its date moves on and its successor is appended with the next id. */
  lemma TablesPastRecurring(db: Db, db0: Db, user: UserId, now: int, done: seq<Reminder>, r: Reminder, p: int)
    requires user in db0.tables && TableValid(db0.tables[user]) && TablesAt(db, db0, user, now, done)
    requires r in db0.tables[user].rows && r !in done && IsDue(r, now) && IsRecurring(r)
    requires Validators.StoredPeriod(r.periodicTime) == Some(p)
    ensures TablesAt(Advanced(db, user, r, p), db0, user, now, done + [r])
  {
    AdvancedTables(db, db0, user, now, done, r, p);
    ExpectedPastRecurring(db0, user, now, done, r, p);
  }

  /** The two statements that walk a due recurring row, on tables reached over `done`. */
  lemma AdvancedTables(db: Db, db0: Db, user: UserId, now: int, done: seq<Reminder>, r: Reminder, p: int)
    requires user in db0.tables && TableValid(db0.tables[user]) && TablesAt(db, db0, user, now, done)
    requires r in db0.tables[user].rows && r !in done && IsDue(r, now) && IsRecurring(r)
    requires Validators.StoredPeriod(r.periodicTime) == Some(p)
    ensures var t0 := db0.tables[user];
      var sp := Spawned(done, now, t0.lastId);
      var succ := Reminder(t0.lastId + |sp| + 1, r.description, r.date + p, r.attachmentFolder, 0, r.period, DefaultPeriodicTime);
      var d := Advanced(db, user, r, p);
      && user in d.tables
      && d.tables[user] == Table(SettleAll(t0.rows, done + [r], now) + sp + [succ], t0.lastId + |sp| + 1)
      && OthersKept(d, db0, user)
  {
    var t0 := db0.tables[user];
    var sp := Spawned(done, now, t0.lastId);
    UpdateReaches(db, db0, user, now, done, r, SetDate(r.date + p));
    var d1 := db.Update(user, r.id, SetDate(r.date + p));
    InsertOnto(d1, db0, user, r.description, r.date + p, r.attachmentFolder, r.period,
               SettleAll(t0.rows, done + [r], now) + sp, t0.lastId + |sp|);
  }

  /** A due one-shot row: it is marked done and nothing is appended. */
  lemma TablesPastOneShot(db: Db, db0: Db, user: UserId, now: int, done: seq<Reminder>, r: Reminder)
    requires user in db0.tables && TableValid(db0.tables[user]) && TablesAt(db, db0, user, now, done)
    requires r in db0.tables[user].rows && r !in done && IsDue(r, now) && !IsRecurring(r)
    ensures TablesAt(db.Update(user, r.id, SetDone(1)), db0, user, now, done + [r])
  {
    UpdateReaches(db, db0, user, now, done, r, SetDone(1));
    SpawnedPush(done, now, db0.tables[user].lastId, r);
  }

  /** Before any row is walked, the tables are the original ones. */
  lemma ReachedAtStart(db0: Db, user: UserId, now: int)
    requires user in db0.tables && TableValid(db0.tables[user])
    ensures Reached(Tick(db0, [], false), db0, user, now, [])
  {
    var t0 := db0.tables[user];
    SettleAllAt(t0.rows, [], now);
    assert SettleAll(t0.rows, [], now) == t0.rows;
    assert Table(t0.rows + [], t0.lastId) == t0;
  }

  /** A row not yet due: nothing changes, and the walk moves on. */
  lemma ReachedPastIdle(t: Tick, db0: Db, user: UserId, now: int, done: seq<Reminder>, r: Reminder)
    requires user in db0.tables && Reached(t, db0, user, now, done) && !IsDue(r, now)
    ensures Reached(t, db0, user, now, done + [r])
  {
    var t0 := db0.tables[user];
    assert (done + [r])[..|done|] == done;
    SettleAllAt(t0.rows, done, now);
    SettleAllAt(t0.rows, done + [r], now);
    assert SettleAll(t0.rows, done + [r], now) == SettleAll(t0.rows, done, now);
    SpawnedPush(done, now, t0.lastId, r);
    OneShotsPush(done, now, r);
  }

  /** Copying an attachment table never changes one that exists. */
  lemma CopyKeepsFiles(db: Db, db0: Db, from: FileKey, to: FileKey)
    requires FilesKept(db, db0)
    ensures FilesKept(db.CopyFiles(from, to), db0)
  {
  }

  /** A due recurring row whose interval parses is walked, even when copying its attachments then raises. */
  lemma ReachedPastRecurring(t: Tick, db0: Db, user: UserId, now: int, done: seq<Reminder>, r: Reminder, p: int)
    requires user in db0.tables && TableValid(db0.tables[user]) && Reached(t, db0, user, now, done) && !t.aborted
    requires r in db0.tables[user].rows && r !in done && IsDue(r, now) && IsRecurring(r)
    requires Validators.StoredPeriod(r.periodicTime) == Some(p)
    ensures Reached(Recur(t, user, r, p), db0, user, now, done + [r])
  {
    var d2 := Advanced(t.db, user, r, p);
    TablesPastRecurring(t.db, db0, user, now, done, r, p);
    assert FilesKept(d2, db0) by {
      assert d2.files == t.db.files;
    }
    if r.attachmentFolder == 1 {
      CopyKeepsFiles(d2, db0, FileKey(user, r.id), FileKey(user, r.id + 1));
    }
    OneShotsPush(done, now, r);
  }

  /** A due one-shot row whose attachment list can be read is announced, marked done, and walked. */
  lemma ReachedPastOneShot(t: Tick, db0: Db, user: UserId, now: int, done: seq<Reminder>, r: Reminder)
    requires user in db0.tables && TableValid(db0.tables[user]) && Reached(t, db0, user, now, done) && !t.aborted
    requires r in db0.tables[user].rows && r !in done && IsDue(r, now) && !IsRecurring(r)
    requires !Fire(t, user, r).aborted
    ensures Reached(Fire(t, user, r), db0, user, now, done + [r])
  {
    TablesPastOneShot(t.db, db0, user, now, done, r);
    var k := FileKey(user, r.id);
    var docs := if r.attachmentFolder != 0 then t.db.files[k] else [];
    var n := Notice(user, NoticeText(r.description, docs), docs);
    var t' := Fire(t, user, r);
    assert t' == Tick(t.db.Update(user, r.id, SetDone(1)), t.sent + [n], false);
    assert NoticeFor(n, user, r, db0.files);
    OneShotsPush(done, now, r);
    assert (done + [r])[..|done|] == done;
  }

  /**
   * One turn of the loop from a reached state: either the row is walked
   * (`moved`), or an exception is raised before it changed anything.
   */
  lemma ReachedPastRow(t: Tick, db0: Db, user: UserId, now: int, done: seq<Reminder>, r: Reminder) returns (moved: bool)
    requires user in db0.tables && TableValid(db0.tables[user]) && Reached(t, db0, user, now, done) && !t.aborted
    requires r in db0.tables[user].rows && r !in done
    ensures !Step(t, user, now, r).aborted ==> moved
    ensures Reached(Step(t, user, now, r), db0, user, now, if moved then done + [r] else done)
  {
    if !IsDue(r, now) {
      ReachedPastIdle(t, db0, user, now, done, r);
      return true;
    }
    if IsRecurring(r) {
      match Validators.StoredPeriod(r.periodicTime)
      case None =>
        return false;
      case Some(p) =>
        ReachedPastRecurring(t, db0, user, now, done, r, p);
        assert Step(t, user, now, r) == Recur(t, user, r, p);
        return true;
    }
    if Fire(t, user, r).aborted {
      return false;
    }
    ReachedPastOneShot(t, db0, user, now, done, r);
    return true;
  }

  /** The last row of `s` walked from the state reached over the rows before it. */
  lemma ReachedPastLast(t: Tick, db0: Db, user: UserId, now: int, s: seq<Reminder>) returns (j: nat)
    requires user in db0.tables && TableValid(db0.tables[user]) && s != [] && !t.aborted
    requires IdsAscending(s) && s[|s| - 1] in db0.tables[user].rows
    requires Reached(t, db0, user, now, s[..|s| - 1])
    ensures var t' := Step(t, user, now, s[|s| - 1]);
      j <= |s| && (!t'.aborted ==> j == |s|) && Reached(t', db0, user, now, s[..j])
  {
    var n := |s| - 1;
    var front, r := s[..n], s[n];
    forall i | 0 <= i < n ensures front[i] != r {
      assert s[i].id < s[n].id;
    }
    var moved := ReachedPastRow(t, db0, user, now, front, r);
    if moved {
      assert s[..|s|] == front + [r];
      j := |s|;
    } else {
      j := n;
    }
  }

  /**
   * The walk over rows `s` of the table, in id order, has settled exactly
   * its first `j` rows: all of them when no exception was raised.
   */
  lemma {:induction false} ScanReaches(db0: Db, user: UserId, now: int, s: seq<Reminder>) returns (j: nat)
    requires user in db0.tables && TableValid(db0.tables[user])
    requires IdsAscending(s) && forall x :: x in s ==> x in db0.tables[user].rows
    ensures var t := ScanPrefix(Tick(db0, [], false), user, now, s);
      j <= |s| && (!t.aborted ==> j == |s|) && Reached(t, db0, user, now, s[..j])
  {
    if s == [] {
      ReachedAtStart(db0, user, now);
      return 0;
    }
    var n := |s| - 1;
    var front := s[..n];
    assert forall x :: x in front ==> x in s;
    j := ScanReaches(db0, user, now, front);
    var t := ScanPrefix(Tick(db0, [], false), user, now, front);
    assert ScanPrefix(Tick(db0, [], false), user, now, s) == Step(t, user, now, s[n]);
    if t.aborted {
      AbortedStays(t, db0, user, now, s, j);
    } else {
      assert s[n] in s;
      assert front[..j] == front;
      j := ReachedPastLast(t, db0, user, now, s);
    }
  }

  /** After an exception the walk stays where it stopped. */
  lemma AbortedStays(t: Tick, db0: Db, user: UserId, now: int, s: seq<Reminder>, j: nat)
    requires user in db0.tables && s != [] && t.aborted && j <= |s| - 1
    requires Reached(t, db0, user, now, s[..|s| - 1][..j])
    ensures Step(t, user, now, s[|s| - 1]) == t && Reached(t, db0, user, now, s[..j])
  {
    assert s[..|s| - 1][..j] == s[..j];
  }

  // ---------------------------------------------------------------------------
  // What one run of `check_reminders` does, stated on the snapshot it reads
  // ---------------------------------------------------------------------------

  /** The table the walk leads to keeps the ids in order, within the counter. */
  lemma ExpectedValid(db0: Db, user: UserId, now: int, done: seq<Reminder>)
    requires user in db0.tables && TableValid(db0.tables[user])
    ensures TableValid(Expected(db0, user, now, done))
    ensures Expected(db0, user, now, done).lastId >= db0.tables[user].lastId
    ensures forall i :: 0 <= i < |db0.tables[user].rows| ==>
      Expected(db0, user, now, done).rows[i] == Settle(db0.tables[user].rows[i], done, now)
    ensures forall y :: y in Expected(db0, user, now, done).rows && y.id > db0.tables[user].lastId ==>
      y in Spawned(done, now, db0.tables[user].lastId)
  {
    var t0 := db0.tables[user];
    var settled := SettleAll(t0.rows, done, now);
    var sp := Spawned(done, now, t0.lastId);
    SettleAllAt(t0.rows, done, now);
    SpawnedIds(done, now, t0.lastId);
    forall i | 0 <= i < |t0.rows| ensures settled[i].id == t0.rows[i].id {
      assert settled[i] == Settle(t0.rows[i], done, now);
    }
    AppendValid(t0.rows, settled, sp, t0.lastId);
  }

  /** Rows with the ids of a valid table, followed by rows numbered on from its counter, form a valid table. */
  lemma AppendValid(rows: seq<Reminder>, settled: seq<Reminder>, sp: seq<Reminder>, lastId: int)
    requires TableValid(Table(rows, lastId)) && |settled| == |rows|
    requires forall i :: 0 <= i < |rows| ==> settled[i].id == rows[i].id
    requires forall i :: 0 <= i < |sp| ==> sp[i].id == lastId + 1 + i
    ensures TableValid(Table(settled + sp, lastId + |sp|))
    ensures forall y :: y in settled + sp && y.id > lastId ==> y in sp
  {
    var t0 := Table(rows, lastId);
    var rows := settled + sp;
    var n := |settled|;
    forall i | 0 <= i < |rows|
      ensures i < n ==> 1 <= rows[i].id <= t0.lastId
      ensures i >= n ==> rows[i].id == t0.lastId + 1 + (i - n)
    {
      if i < n {
        assert rows[i] == settled[i] && settled[i].id == t0.rows[i].id;
        assert t0.rows[i] in t0.rows;
      } else {
        assert rows[i] == sp[i - n];
      }
    }
    forall i, j | 0 <= i < j < |rows| ensures rows[i].id < rows[j].id {
      if j < n {
        assert settled[i].id == t0.rows[i].id && settled[j].id == t0.rows[j].id;
      }
    }
    forall y | y in rows ensures 1 <= y.id <= t0.lastId + |sp| && (y.id > t0.lastId ==> y in sp) {
      var i :| 0 <= i < |rows| && rows[i] == y;
      if i >= n {
        assert y == sp[i - n];
      }
    }
  }

  /** The rows of a prefix of the snapshot are rows of the snapshot. */
  lemma PrefixMembers(s: seq<Reminder>, j: nat, x: Reminder)
    requires j <= |s| && x in s[..j]
    ensures x in s
  {
    var i :| 0 <= i < j && s[..j][i] == x;
    assert s[i] == x;
  }

  /**
   * `check_reminders` walks the undone rows of the user's table in id order
   * and stops where an exception is raised: after it the database and the
   * notices are those the walk over the first `j` of those rows leads to,
   * and `j` covers them all when nothing was raised.
   */
  lemma ScanFinal(db0: Db, user: UserId, now: int) returns (j: nat)
    requires db0.Valid() && user in db0.tables
    ensures var s := WithDone(db0.tables[user].rows, 0);
      var t := Scan(db0, user, now);
      j <= |s| && (!t.aborted ==> j == |s|) && Reached(t, db0, user, now, s[..j])
  {
    var t0 := db0.tables[user];
    assert TableValid(t0);
    var s := WithDone(t0.rows, 0);
    assert Scan(db0, user, now) == ScanPrefix(Tick(db0, [], false), user, now, s);
    j := ScanReaches(db0, user, now, s);
  }

  /** Without a reminder table the first query raises and nothing changes. */
  lemma ScanWithoutTable(db0: Db, user: UserId, now: int)
    requires user !in db0.tables
    ensures Scan(db0, user, now) == Tick(db0, [], true)
  {
  }

  /**
   * A row that is done, or not due yet, is left as it was, whether or not
   * the walk was cut short by an exception.
   */
  lemma ScanLeavesRow(db0: Db, user: UserId, now: int, x: Reminder)
    requires db0.Valid() && user in db0.tables && x in db0.tables[user].rows
    requires x.done != 0 || !IsDue(x, now)
    ensures var t := Scan(db0, user, now);
      user in t.db.tables && Find(t.db.tables[user].rows, x.id) == Some(x)
  {
    var t0 := db0.tables[user];
    var s := WithDone(t0.rows, 0);
    var j := ScanFinal(db0, user, now);
    var e := Expected(db0, user, now, s[..j]);
    ExpectedValid(db0, user, now, s[..j]);
    if x in s[..j] {
      PrefixMembers(s, j, x);
    }
    var i :| 0 <= i < |t0.rows| && t0.rows[i] == x;
    assert e.rows[i] == x;
    FindUnique(e.rows, x.id, x);
  }

  /** When the walk ran to the end, every undone due row holds its settled value, and a recurring one had an interval that parses. */
  lemma ScanFindsSettled(db0: Db, user: UserId, now: int, x: Reminder)
    requires db0.Valid() && user in db0.tables && x in db0.tables[user].rows
    requires x.done == 0 && IsDue(x, now) && !Scan(db0, user, now).aborted
    ensures var t := Scan(db0, user, now);
      && user in t.db.tables && Find(t.db.tables[user].rows, x.id) == Some(Settled(x))
      && (IsRecurring(x) ==> Validators.StoredPeriod(x.periodicTime).Some?)
  {
    var t0 := db0.tables[user];
    var s := WithDone(t0.rows, 0);
    var j := ScanFinal(db0, user, now);
    assert s[..j] == s;
    var e := Expected(db0, user, now, s);
    ExpectedValid(db0, user, now, s);
    var i :| 0 <= i < |t0.rows| && t0.rows[i] == x;
    assert x in s;
    assert e.rows[i] == Settled(x);
    FindUnique(e.rows, x.id, Settled(x));
  }

  /**
   * When the walk ran to the end, every undone due row was settled: a one-shot
   * row is now done; a recurring row's interval parsed and its date moved on
   * by that period from its old date, and it stays undone.
   */
  lemma ScanSettlesRow(db0: Db, user: UserId, now: int, x: Reminder)
    requires db0.Valid() && user in db0.tables && x in db0.tables[user].rows
    requires x.done == 0 && IsDue(x, now) && !Scan(db0, user, now).aborted
    ensures var t := Scan(db0, user, now);
      && user in t.db.tables
      && (!IsRecurring(x) ==> Find(t.db.tables[user].rows, x.id) == Some(x.(done := 1)))
      && (IsRecurring(x) ==>
           && Validators.StoredPeriod(x.periodicTime).Some?
           && Find(t.db.tables[user].rows, x.id) == Some(x.(date := x.date + Validators.StoredPeriod(x.periodicTime).value)))
  {
    ScanFindsSettled(db0, user, now, x);
  }

  /** Each successor row answers a due recurring row among `done`. */
  lemma {:induction false} SpawnedFrom(done: seq<Reminder>, now: int, lastId: int, y: Reminder) returns (x: Reminder)
    requires y in Spawned(done, now, lastId)
    ensures x in done && IsDue(x, now) && IsRecurring(x) && y == Successor(x, y.id)
  {
    var front, r := done[..|done| - 1], done[|done| - 1];
    assert done == front + [r];
    SpawnedPush(front, now, lastId, r);
    var sp := Spawned(front, now, lastId);
    if y in sp {
      x := SpawnedFrom(front, now, lastId, y);
    } else {
      x := r;
    }
  }

  /** Each due recurring row among `done` has its successor row. */
  lemma {:induction false} SpawnedFor(done: seq<Reminder>, now: int, lastId: int, x: Reminder) returns (y: Reminder)
    requires x in done && IsDue(x, now) && IsRecurring(x)
    ensures y in Spawned(done, now, lastId) && y == Successor(x, y.id)
  {
    var front, r := done[..|done| - 1], done[|done| - 1];
    assert done == front + [r];
    SpawnedPush(front, now, lastId, r);
    var sp := Spawned(front, now, lastId);
    if x in front {
      y := SpawnedFor(front, now, lastId, x);
      assert y in sp;
    } else {
      assert x == r;
      y := Successor(x, lastId + |sp| + 1);
      assert Spawned(done, now, lastId) == sp + [y];
    }
  }

  /**
   * When the walk ran to the end, every undone due recurring row has a new row
   * after it: same description, attachment flag and period flag, the advanced
   * date, undone, and `periodic_time` at its default "0 0 0".
   */
  lemma ScanAddsSuccessor(db0: Db, user: UserId, now: int, x: Reminder)
    requires db0.Valid() && user in db0.tables && x in db0.tables[user].rows
    requires x.done == 0 && IsDue(x, now) && IsRecurring(x) && !Scan(db0, user, now).aborted
    ensures var t := Scan(db0, user, now);
      && user in t.db.tables && Validators.StoredPeriod(x.periodicTime).Some?
      && exists y :: y in t.db.tables[user].rows && y.id > db0.tables[user].lastId
           && y == Reminder(y.id, x.description, x.date + Validators.StoredPeriod(x.periodicTime).value,
                            x.attachmentFolder, 0, x.period, DefaultPeriodicTime)
  {
    var t0 := db0.tables[user];
    var s := WithDone(t0.rows, 0);
    var j := ScanFinal(db0, user, now);
    assert s[..j] == s;
    assert x in s;
    ScanSettlesRow(db0, user, now, x);
    var y := SpawnedFor(s, now, t0.lastId, x);
    SpawnedIds(s, now, t0.lastId);
    var sp := Spawned(s, now, t0.lastId);
    var k :| 0 <= k < |sp| && sp[k] == y;
    assert y in SettleAll(t0.rows, s, now) + sp;
  }

  /**
   * Every row the walk added (an id above the counter's old value) is the
   * successor of an undone due recurring row; this holds also when the walk
   * was cut short.
   */
  lemma ScanAddsOnlySuccessors(db0: Db, user: UserId, now: int, y: Reminder)
    requires db0.Valid() && user in db0.tables
    requires var t := Scan(db0, user, now);
      user in t.db.tables && y in t.db.tables[user].rows && y.id > db0.tables[user].lastId
    ensures exists x ::
      x in db0.tables[user].rows && x.done == 0 && IsDue(x, now) && IsRecurring(x) && y == Successor(x, y.id)
  {
    var t0 := db0.tables[user];
    var s := WithDone(t0.rows, 0);
    var j := ScanFinal(db0, user, now);
    ExpectedValid(db0, user, now, s[..j]);
    var x := SpawnedFrom(s[..j], now, t0.lastId, y);
    PrefixMembers(s, j, x);
  }

  /** The due one-shot rows among `done` are exactly the rows announced. */
  lemma {:induction false} OneShotsMembers(done: seq<Reminder>, now: int, x: Reminder)
    ensures x in OneShots(done, now) <==> x in done && IsDue(x, now) && !IsRecurring(x)
  {
    if done != [] {
      var front, r := done[..|done| - 1], done[|done| - 1];
      assert done == front + [r];
      OneShotsPush(front, now, r);
      OneShotsMembers(front, now, x);
    }
  }

  /**
   * When the walk ran to the end, every undone due one-shot row was announced
   * once in a message of its own text, with its attachments.
   */
  lemma ScanAnnounces(db0: Db, user: UserId, now: int, x: Reminder)
    requires db0.Valid() && user in db0.tables && x in db0.tables[user].rows
    requires x.done == 0 && IsDue(x, now) && !IsRecurring(x) && !Scan(db0, user, now).aborted
    ensures exists n :: n in Scan(db0, user, now).sent && NoticeFor(n, user, x, db0.files)
  {
    var t0 := db0.tables[user];
    var s := WithDone(t0.rows, 0);
    var j := ScanFinal(db0, user, now);
    assert s[..j] == s;
    OneShotsMembers(s, now, x);
    var o := OneShots(s, now);
    var i :| 0 <= i < |o| && o[i] == x;
    var sent := Scan(db0, user, now).sent;
    assert NoticeFor(sent[i], user, x, db0.files);
  }

  /**
   * Every message sent announces an undone due one-shot row: a recurring row
   * never gets one, also when the walk was cut short.
   */
  lemma ScanAnnouncesOnlyOneShots(db0: Db, user: UserId, now: int, n: Notice)
    requires db0.Valid() && user in db0.tables && n in Scan(db0, user, now).sent
    ensures exists x ::
      x in db0.tables[user].rows && x.done == 0 && IsDue(x, now) && !IsRecurring(x) && NoticeFor(n, user, x, db0.files)
  {
    var t0 := db0.tables[user];
    var s := WithDone(t0.rows, 0);
    var j := ScanFinal(db0, user, now);
    var sent := Scan(db0, user, now).sent;
    var o := OneShots(s[..j], now);
    var i :| 0 <= i < |sent| && sent[i] == n;
    var x := o[i];
    OneShotsMembers(s[..j], now, x);
    PrefixMembers(s, j, x);
    assert NoticeFor(n, user, x, db0.files);
  }

  /** The scan never removes or rewrites an attachment list, nor touches another user's table. */
  lemma ScanKeepsOtherState(db0: Db, user: UserId, now: int)
    requires db0.Valid()
    ensures var t := Scan(db0, user, now);
      FilesKept(t.db, db0) && OthersKept(t.db, db0, user)
  {
    if user in db0.tables {
      var j := ScanFinal(db0, user, now);
    }
  }

  /**
   * The attachments of a recurring row go to the attachment table of id
   * `r.id + 1`, which is the id of the successor row only by coincidence:
   * that row gets the counter's next id. No other attachment table appears.
   */
  lemma RecurCopiesToNextId(t: Tick, user: UserId, r: Reminder, p: int)
    requires user in t.db.tables
    ensures var t' := Recur(t, user, r, p);
      && user in t'.db.tables
      && t'.db.tables[user].lastId == t.db.tables[user].lastId + 1
      && (forall k :: k in t'.db.files ==> k in t.db.files || k == FileKey(user, r.id + 1))
      && (r.attachmentFolder == 1 && FileKey(user, r.id) in t.db.files && FileKey(user, r.id + 1) !in t.db.files ==>
            FileKey(user, r.id + 1) in t'.db.files && t'.db.files[FileKey(user, r.id + 1)] == t.db.files[FileKey(user, r.id)])
  {
  }

  /**
   * An instance: row 1 of a table whose counter stands at 3 recurs daily with
   * an attachment. Its successor gets id 4, the copy goes to reminder 2, and
   * the successor has no attachment table.
   */
  lemma SuccessorMissesAttachments(a: Attachment)
    ensures var r := Reminder(1, "pay rent", 0, 1, 0, 1, "1 0 0");
      var db := Db(map[7 := Table([r], 3)], map[FileKey(7, 1) := [a]]);
      var t' := Recur(Tick(db, [], false), 7, r, 1440);
      && Reminder(4, "pay rent", 1440, 1, 0, 1, DefaultPeriodicTime) in t'.db.tables[7].rows
      && FileKey(7, 2) in t'.db.files && FileKey(7, 4) !in t'.db.files
  {
    var r := Reminder(1, "pay rent", 0, 1, 0, 1, "1 0 0");
    var db := Db(map[7 := Table([r], 3)], map[FileKey(7, 1) := [a]]);
    var d := Advanced(db, 7, r, 1440);
    assert d.tables[7].rows == [r.(date := 1440), Reminder(4, "pay rent", 1440, 1, 0, 1, DefaultPeriodicTime)];
  }

  /**
   * The successor of that instance, once due, stops every later tick: it is
   * a one-shot row (its `periodic_time` is the default) with the attachment
   * flag set, its attachment table does not exist, so reading it raises; the
   * row is never marked done, and the undone row after it is never announced.
   */
  lemma ScanJamsOnSuccessor(now: int)
    requires now >= 1440
    ensures var succ := Reminder(4, "pay rent", 1440, 1, 0, 1, DefaultPeriodicTime);
      var later := Reminder(5, "call", 0, 0, 0, 0, DefaultPeriodicTime);
      var db := Db(map[7 := Table([succ, later], 5)], map[]);
      Scan(db, 7, now) == Tick(db, [], true)
  {
    var succ := Reminder(4, "pay rent", 1440, 1, 0, 1, DefaultPeriodicTime);
    var later := Reminder(5, "call", 0, 0, 0, 0, DefaultPeriodicTime);
    var db := Db(map[7 := Table([succ, later], 5)], map[]);
    var rows := [succ, later];
    assert WithDone(rows, 0) == rows by {
      assert rows[1..] == [later] && [later][1..] == [];
      assert WithDone([later], 0) == [later] + WithDone([], 0);
      assert WithDone(rows, 0) == [succ] + WithDone([later], 0);
    }
    assert rows[..1] == [succ] && [succ][..0] == [];
    assert ScanPrefix(Tick(db, [], false), 7, now, rows[..1]) == Tick(db, [], true);
  }
}
