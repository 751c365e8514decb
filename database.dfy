/**
 * The SQLite file `reminders.db` as the bot uses it: one reminder table
 * `user_<id>` per user and one attachment table
 * `attachments_<user>_<reminder>` per reminder that was given files.
 * `Db` is its value and the meaning of every statement; `Store` is the
 * database the bot's functions update in place.
 */
module Database {
  import opened Wrappers
  import opened Records

  /** Names the attachment table `attachments_<user>_<reminder>`. */
  datatype FileKey = FileKey(user: UserId, reminder: int)

  /**
   * A reminder table with its AUTOINCREMENT counter (the table's entry in
   * `sqlite_sequence`): the largest id the table has ever issued.
   */
  datatype Table = Table(rows: seq<Reminder>, lastId: int)

  ghost predicate TableValid(t: Table)
  {
    IdsAscending(t.rows) && t.lastId >= 0 && forall x :: x in t.rows ==> 1 <= x.id <= t.lastId
  }

  /** The result of a query; NoSuchTable where sqlite raises "no such table". */
  datatype Fetched<T> = Fetched(value: T) | NoSuchTable

  datatype Db = Db(tables: map<UserId, Table>, files: map<FileKey, seq<Attachment>>) {

    ghost predicate Valid()
    {
      forall u :: u in tables ==> TableValid(tables[u])
    }

    /** `create_user_reminders_table`: CREATE TABLE IF NOT EXISTS. */
    function CreateUserTable(user: UserId): (d: Db)
      ensures user in d.tables && d.files == files
    {
      if user in tables then this else this.(tables := tables[user := Table([], 0)])
    }

    /**
     * `add_to_database`: INSERT of a row whose id is one past the largest id
     * ever issued, with `done` and `periodic_time` at their column defaults.
     * A missing table leaves everything as it was (the call raises).
     */
    function Insert(user: UserId, description: string, date: int, attachmentFolder: int, period: int): (d: Db)
      ensures d.files == files && d.tables.Keys == tables.Keys
    {
      if user !in tables then this
      else
        var t := tables[user];
        var row := Reminder(t.lastId + 1, description, date, attachmentFolder, 0, period, DefaultPeriodicTime);
        this.(tables := tables[user := Table(t.rows + [row], t.lastId + 1)])
    }

    /** `get_user_reminders`: the rows whose `done` is 1 (done) or 0 (not done). */
    function Rows(user: UserId, done: bool): Fetched<seq<Reminder>>
    {
      if user in tables then Fetched(WithDone(tables[user].rows, DoneFlag(done))) else NoSuchTable
    }

    /** An `UPDATE user_<id> SET ... WHERE id = ?` statement. */
    function Update(user: UserId, id: int, c: Change): (d: Db)
      ensures d.files == files && d.tables.Keys == tables.Keys
    {
      if user !in tables then this
      else
        var t := tables[user];
        this.(tables := tables[user := t.(rows := UpdateWhere(t.rows, id, c))])
    }

    /** `update_attachment_folder`: the UPDATE applies to the row `WHERE id = (SELECT MAX(id) ...)`. */
    function UpdateLatest(user: UserId, c: Change): (d: Db)
      ensures d.files == files && d.tables.Keys == tables.Keys
    {
      if user !in tables then this
      else match MaxId(tables[user].rows)
        case None => this
        case Some(m) => Update(user, m, c)
    }

    /** `get_latest_reminder_id`: the largest id present, None for an empty table. */
    function LatestId(user: UserId): Fetched<Option<int>>
    {
      if user in tables then Fetched(MaxId(tables[user].rows)) else NoSuchTable
    }

    /** `get_reminder_info`: the row with the id, if any. */
    function Info(user: UserId, id: int): Fetched<Option<Reminder>>
    {
      if user in tables then Fetched(Find(tables[user].rows, id)) else NoSuchTable
    }

    /** The remote references `delete_reminder` asks remote storage to delete, in table order. */
    function DeleteRequests(user: UserId, id: int): (refs: seq<BlobRef>)
      ensures FileKey(user, id) !in files ==> refs == []
      ensures FileKey(user, id) in files ==>
        (|refs| == |files[FileKey(user, id)]|
         && forall i :: 0 <= i < |refs| ==> refs[i] == files[FileKey(user, id)][i].filePath)
    {
      if FileKey(user, id) in files then FilePaths(files[FileKey(user, id)]) else []
    }

    /**
     * `delete_reminder`: DROP TABLE of the reminder's attachment table when it
     * exists (that statement runs, and stays, even when the reminder table is
     * missing and the DELETE after it raises), then DELETE of the row.
     */
    function DeleteReminder(user: UserId, id: int): (d: Db)
      ensures d.tables.Keys == tables.Keys
    {
      var files' := map k | k in files && k != FileKey(user, id) :: files[k];
      if user !in tables then this.(files := files')
      else
        var t := tables[user];
        Db(tables[user := t.(rows := RemoveId(t.rows, id))], files')
    }

    /** `create_attachments_table`: CREATE TABLE IF NOT EXISTS. */
    function CreateFilesTable(k: FileKey): (d: Db)
      ensures d.tables == tables && k in d.files
    {
      if k in files then this else this.(files := files[k := []])
    }

    /** `save_file_info_to_database`: INSERT at the end of an existing attachment table. */
    function SaveFile(k: FileKey, path: BlobRef, name: string): (d: Db)
      ensures d.tables == tables
    {
      if k in files then this.(files := files[k := files[k] + [Attachment(path, name)]]) else this
    }

    /** `get_all_files_info_from_database`: the (file_path, file_name) rows in table order. */
    function FilesOf(k: FileKey): Fetched<seq<Attachment>>
    {
      if k in files then Fetched(files[k]) else NoSuchTable
    }

    /** `delete_file_from_database`: DELETE of every row with that `file_path`. */
    function DeleteFile(k: FileKey, path: BlobRef): (d: Db)
      ensures d.tables == tables
    {
      if k in files then this.(files := files[k := WithoutPath(files[k], path)]) else this
    }

    /**
     * `copy_attachments`: CREATE TABLE IF NOT EXISTS `to` AS SELECT * FROM
     * `from` does nothing when `to` exists, and raises when it does not and
     * `from` does not exist either.
     */
    predicate CopyFails(from: FileKey, to: FileKey)
    {
      to !in files && from !in files
    }

    function CopyFiles(from: FileKey, to: FileKey): (d: Db)
      ensures d.tables == tables
    {
      if to in files || from !in files then this else this.(files := files[to := files[from]])
    }
  }

  function FilePaths(fs: seq<Attachment>): (refs: seq<BlobRef>)
    ensures |refs| == |fs| && forall i :: 0 <= i < |fs| ==> refs[i] == fs[i].filePath
  {
    if fs == [] then [] else [fs[0].filePath] + FilePaths(fs[1..])
  }

  /** The rows of an attachment table without those whose `file_path` is `path`, in table order. */
  function WithoutPath(fs: seq<Attachment>, path: BlobRef): (r: seq<Attachment>)
    ensures forall a :: a in r <==> a in fs && a.filePath != path
    ensures forall a: Attachment :: a.filePath != path ==> multiset(r)[a] == multiset(fs)[a]
    ensures (forall a :: a in fs ==> a.filePath != path) ==> r == fs
  {
    if fs == [] then []
    else
      assert fs == [fs[0]] + fs[1..];
      if fs[0].filePath == path then WithoutPath(fs[1..], path)
      else [fs[0]] + WithoutPath(fs[1..], path)
  }

  /** The DELETE keeps the remaining rows in table order: it acts on each part of the table separately. */
  lemma {:induction false} WithoutPathSplits(fs1: seq<Attachment>, fs2: seq<Attachment>, path: BlobRef)
    ensures WithoutPath(fs1 + fs2, path) == WithoutPath(fs1, path) + WithoutPath(fs2, path)
  {
    if fs1 == [] {
      assert fs1 + fs2 == fs2;
    } else {
      assert (fs1 + fs2)[0] == fs1[0];
      assert (fs1 + fs2)[1..] == fs1[1..] + fs2;
      WithoutPathSplits(fs1[1..], fs2, path);
    }
  }

  lemma CreateUserTableKeepsValid(db: Db, user: UserId)
    requires db.Valid()
    ensures db.CreateUserTable(user).Valid()
  {
  }

  /** The appended row's id is above every id in the table, so the table stays in id order. */
  lemma InsertKeepsValid(db: Db, user: UserId, description: string, date: int, attachmentFolder: int, period: int)
    requires db.Valid()
    ensures db.Insert(user, description, date, attachmentFolder, period).Valid()
  {
    if user in db.tables {
      var d := db.Insert(user, description, date, attachmentFolder, period);
      assert TableValid(db.tables[user]);
      assert TableValid(d.tables[user]);
    }
  }

  lemma UpdateKeepsValid(db: Db, user: UserId, id: int, c: Change)
    requires db.Valid()
    ensures db.Update(user, id, c).Valid()
  {
    if user in db.tables {
      var t := db.tables[user];
      assert TableValid(t);
      UpdateKeepsAscending(t.rows, id, c);
      var d := db.Update(user, id, c);
      assert TableValid(d.tables[user]);
    }
  }

  lemma UpdateLatestKeepsValid(db: Db, user: UserId, c: Change)
    requires db.Valid()
    ensures db.UpdateLatest(user, c).Valid()
  {
    if user in db.tables && MaxId(db.tables[user].rows).Some? {
      UpdateKeepsValid(db, user, MaxId(db.tables[user].rows).value, c);
    }
  }

  lemma DeleteReminderKeepsValid(db: Db, user: UserId, id: int)
    requires db.Valid()
    ensures db.DeleteReminder(user, id).Valid()
  {
    if user in db.tables {
      assert TableValid(db.tables[user]);
    }
  }

  /** `add_to_database` issues an id above every id the table ever issued; `get_latest_reminder_id` then returns it. */
  lemma InsertIssuesFreshId(db: Db, user: UserId, description: string, date: int, attachmentFolder: int, period: int)
    requires db.Valid() && user in db.tables
    ensures var d := db.Insert(user, description, date, attachmentFolder, period);
      var t, t' := db.tables[user], d.tables[user];
      && t'.lastId == t.lastId + 1
      && t'.rows == t.rows + [Reminder(t'.lastId, description, date, attachmentFolder, 0, period, DefaultPeriodicTime)]
      && (forall x :: x in t.rows ==> x.id < t'.lastId)
      && d.LatestId(user) == Fetched(Some(t'.lastId))
      && (forall u :: u in db.tables && u != user ==> d.tables[u] == db.tables[u])
  {
    var d := db.Insert(user, description, date, attachmentFolder, period);
    InsertKeepsValid(db, user, description, date, attachmentFolder, period);
    assert TableValid(d.tables[user]);
    MaxIdIsLast(d.tables[user].rows);
  }

  /**
   * An UPDATE by id (`mark_as`, `update_description`, `update_date`,
   * `update_periodic_info`) rewrites one row of one reminder table: the row
   * with the id, when there is one, reads back changed in the set column;
   * every other id reads back as before; no row is added or removed, the
   * counter stays, and no other table or attachment list changes.
   */
  lemma UpdateTouchesOneTable(db: Db, user: UserId, id: int, c: Change)
    requires db.Valid() && user in db.tables
    ensures var d := db.Update(user, id, c);
      && d.files == db.files
      && (forall u :: u in db.tables && u != user ==> d.tables[u] == db.tables[u])
      && user in d.tables
      && |d.tables[user].rows| == |db.tables[user].rows|
      && d.tables[user].lastId == db.tables[user].lastId
    ensures var t, t' := db.tables[user], db.Update(user, id, c).tables[user];
      && (Find(t.rows, id).None? ==> Find(t'.rows, id).None?)
      && (Find(t.rows, id).Some? ==> Find(t'.rows, id) == Some(Apply(Find(t.rows, id).value, c)))
      && (forall other :: other != id ==> Find(t'.rows, other) == Find(t.rows, other))
  {
    var rows := db.tables[user].rows;
    assert TableValid(db.tables[user]);
    UpdateChangesRow(rows, id, c);
    forall other | other != id
      ensures Find(UpdateWhere(rows, id, c), other) == Find(rows, other)
    {
      UpdateKeepsOtherRows(rows, id, c, other);
    }
  }

  /** `mark_as` sets `done` on the row with the id and on nothing else. */
  lemma MarkAsSetsOnlyDone(db: Db, user: UserId, id: int, value: int, x: Reminder)
    requires db.Valid() && user in db.tables && x in db.tables[user].rows
    ensures var rows' := db.Update(user, id, SetDone(value)).tables[user].rows;
      (x.id == id ==> x.(done := value) in rows') && (x.id != id ==> x in rows')
  {
    var rows := db.tables[user].rows;
    assert TableValid(db.tables[user]);
    UpdateTouchesOneTable(db, user, id, SetDone(value));
    var rows' := UpdateWhere(rows, id, SetDone(value));
    FindUnique(rows, x.id, x);
    if x.id == id {
      UpdateChangesRow(rows, id, SetDone(value));
    } else {
      UpdateKeepsOtherRows(rows, id, SetDone(value), x.id);
    }
  }

  /**
   * `delete_reminder` removes the row with the id and the whole attachment
   * list of that reminder, and nothing else.
   */
  lemma DeleteReminderCascades(db: Db, user: UserId, id: int)
    requires db.Valid()
    ensures var d := db.DeleteReminder(user, id);
      && d.files.Keys == db.files.Keys - {FileKey(user, id)}
      && (forall k :: k in d.files ==> d.files[k] == db.files[k])
      && (user in db.tables ==>
           Find(d.tables[user].rows, id).None?
           && (forall x :: x in d.tables[user].rows <==> x in db.tables[user].rows && x.id != id)
           && d.tables[user].lastId == db.tables[user].lastId)
      && (forall u :: u in db.tables && u != user ==> d.tables[u] == db.tables[u])
  {
  }

  /**
   * `copy_attachments` that does not raise: reading the new table gives back
   * what reading the source gives (the same remote references, nothing is
   * uploaded again), no table that existed before reads differently, and a
   * second copy changes nothing.
   */
  lemma CopyFilesSharesRefs(db: Db, from: FileKey, to: FileKey)
    requires !db.CopyFails(from, to)
    ensures var d := db.CopyFiles(from, to);
      && d.files.Keys == db.files.Keys + {to}
      && (to !in db.files ==> d.FilesOf(to) == db.FilesOf(from))
      && (forall k :: k in db.files ==> d.FilesOf(k) == db.FilesOf(k))
      && !d.CopyFails(from, to)
      && d.CopyFiles(from, to) == d
  {
  }

  /**
   * `delete_file_from_database` removes the rows with that reference, keeps
   * every other row as often as it was there (and in table order, see
   * WithoutPathSplits), leaves other tables alone, and is idempotent.
   */
  lemma DeleteFileRemovesRef(db: Db, k: FileKey, path: BlobRef)
    requires k in db.files
    ensures var d := db.DeleteFile(k, path);
      && d.files.Keys == db.files.Keys
      && (forall a :: a in d.files[k] <==> a in db.files[k] && a.filePath != path)
      && (forall a: Attachment :: a.filePath != path ==> multiset(d.files[k])[a] == multiset(db.files[k])[a])
      && (forall k' :: k' in db.files && k' != k ==> d.files[k'] == db.files[k'])
      && d.DeleteFile(k, path) == d
  {
    var d := db.DeleteFile(k, path);
    assert forall a :: a in d.files[k] ==> a.filePath != path;
  }

  /**
   * The database file: the bot's functions each open it, run one or two
   * statements and commit, which this class models as methods that update
   * its two fields in place.
   */
  class Store {
    var tables: map<UserId, Table>
    var files: map<FileKey, seq<Attachment>>

    function Snapshot(): Db
      reads this
    {
      Db(tables, files)
    }

    ghost predicate Valid()
      reads this
    {
      Snapshot().Valid()
    }

    /** An empty database file. */
    constructor ()
      ensures Valid() && tables == map[] && files == map[]
    {
      tables := map[];
      files := map[];
    }

    method CreateUserRemindersTable(user: UserId)
      requires Valid()
      modifies this
      ensures Valid()
      ensures Snapshot() == old(Snapshot()).CreateUserTable(user)
    {
      CreateUserTableKeepsValid(Snapshot(), user);
      if user !in tables {
        tables := tables[user := Table([], 0)];
      }
    }

    /** `ok` is false where the INSERT raises (no table for the user). */
    method AddToDatabase(user: UserId, description: string, date: int, attachmentFolder: int, period: int)
      returns (ok: bool)
      requires Valid()
      modifies this
      ensures Valid()
      ensures ok == (user in old(tables))
      ensures Snapshot() == old(Snapshot()).Insert(user, description, date, attachmentFolder, period)
    {
      InsertKeepsValid(Snapshot(), user, description, date, attachmentFolder, period);
      ok := user in tables;
      if ok {
        var t := tables[user];
        var row := Reminder(t.lastId + 1, description, date, attachmentFolder, 0, period, DefaultPeriodicTime);
        tables := tables[user := Table(t.rows + [row], t.lastId + 1)];
      }
    }

    method GetUserReminders(user: UserId, done: bool) returns (r: Fetched<seq<Reminder>>)
      ensures r == Snapshot().Rows(user, done)
      ensures r.Fetched? <==> user in tables
      ensures r.Fetched? ==> forall x :: x in r.value <==> x in tables[user].rows && x.done == DoneFlag(done)
    {
      if user in tables {
        r := Fetched(WithDone(tables[user].rows, DoneFlag(done)));
      } else {
        r := NoSuchTable;
      }
    }

    method UpdateAttachmentFolder(user: UserId, attachmentFolder: int) returns (ok: bool)
      requires Valid()
      modifies this
      ensures Valid()
      ensures ok == (user in old(tables))
      ensures Snapshot() == old(Snapshot()).UpdateLatest(user, SetAttachmentFolder(attachmentFolder))
    {
      ok := user in tables;
      if ok {
        var latest := MaxId(tables[user].rows);
        if latest.Some? {
          ok := Change(user, latest.value, SetAttachmentFolder(attachmentFolder));
        }
      }
    }

    /** One `UPDATE user_<id> SET ... WHERE id = ?`; `ok` is false where it raises. */
    method Change(user: UserId, id: int, c: Change) returns (ok: bool)
      requires Valid()
      modifies this
      ensures Valid()
      ensures ok == (user in old(tables))
      ensures Snapshot() == old(Snapshot()).Update(user, id, c)
    {
      UpdateKeepsValid(Snapshot(), user, id, c);
      ok := user in tables;
      if ok {
        var t := tables[user];
        tables := tables[user := t.(rows := UpdateWhere(t.rows, id, c))];
      }
    }

    method MarkAs(user: UserId, id: int, value: int) returns (ok: bool)
      requires Valid()
      modifies this
      ensures Valid()
      ensures ok == (user in old(tables))
      ensures Snapshot() == old(Snapshot()).Update(user, id, SetDone(value))
    {
      ok := Change(user, id, SetDone(value));
    }

    method UpdateDescription(user: UserId, id: int, description: string) returns (ok: bool)
      requires Valid()
      modifies this
      ensures Valid()
      ensures ok == (user in old(tables))
      ensures Snapshot() == old(Snapshot()).Update(user, id, SetDescription(description))
    {
      ok := Change(user, id, SetDescription(description));
    }

    method UpdateDate(user: UserId, id: int, date: int) returns (ok: bool)
      requires Valid()
      modifies this
      ensures Valid()
      ensures ok == (user in old(tables))
      ensures Snapshot() == old(Snapshot()).Update(user, id, SetDate(date))
    {
      ok := Change(user, id, SetDate(date));
    }

    /** `ok` is the function's own True/False (it catches the sqlite error). */
    method UpdatePeriodicInfo(user: UserId, id: int, periodicTime: string, period: int) returns (ok: bool)
      requires Valid()
      modifies this
      ensures Valid()
      ensures ok == (user in old(tables))
      ensures Snapshot() == old(Snapshot()).Update(user, id, SetPeriodic(periodicTime, period))
    {
      ok := Change(user, id, SetPeriodic(periodicTime, period));
    }

    method GetLatestReminderId(user: UserId) returns (r: Fetched<Option<int>>)
      ensures r == Snapshot().LatestId(user)
      ensures r.Fetched? <==> user in tables
      ensures r.Fetched? ==> (r.value.None? <==> tables[user].rows == [])
      ensures r.Fetched? && r.value.Some? ==>
        (exists x :: x in tables[user].rows && x.id == r.value.value)
        && forall x :: x in tables[user].rows ==> x.id <= r.value.value
    {
      if user in tables {
        r := Fetched(MaxId(tables[user].rows));
      } else {
        r := NoSuchTable;
      }
    }

    method GetReminderInfo(user: UserId, id: int) returns (r: Fetched<Option<Reminder>>)
      ensures r == Snapshot().Info(user, id)
      ensures r.Fetched? <==> user in tables
      ensures r.Fetched? && r.value.Some? ==> r.value.value in tables[user].rows && r.value.value.id == id
      ensures r.Fetched? && r.value.None? ==> forall x :: x in tables[user].rows ==> x.id != id
    {
      if user in tables {
        r := Fetched(Find(tables[user].rows, id));
      } else {
        r := NoSuchTable;
      }
    }

    /**
     * `ok` is the function's own True/False; `requested` are the remote
     * deletes it issues, one per stored reference, in table order.
     */
    method DeleteReminder(user: UserId, id: int) returns (ok: bool, requested: seq<BlobRef>)
      requires Valid()
      modifies this
      ensures Valid()
      ensures ok == (user in old(tables))
      ensures requested == old(Snapshot()).DeleteRequests(user, id)
      ensures Snapshot() == old(Snapshot()).DeleteReminder(user, id)
    {
      DeleteReminderKeepsValid(Snapshot(), user, id);
      var k := FileKey(user, id);
      requested := [];
      if k in files {
        var fs := files[k];
        var i := 0;
        while i < |fs|
          invariant 0 <= i <= |fs|
          invariant requested == FilePaths(fs[..i])
          invariant tables == old(tables) && files == old(files)
        {
          assert fs[..i + 1] == fs[..i] + [fs[i]];
          FilePathsAppend(fs[..i], fs[i]);
          requested := requested + [fs[i].filePath];
          i := i + 1;
        }
        assert fs[..i] == fs;
        files := map k' | k' in files && k' != k :: files[k'];
      }
      ok := user in tables;
      if ok {
        var t := tables[user];
        tables := tables[user := t.(rows := RemoveId(t.rows, id))];
      }
    }

    method CreateAttachmentsTable(user: UserId, reminder: int)
      modifies this
      ensures Snapshot() == old(Snapshot()).CreateFilesTable(FileKey(user, reminder))
    {
      var k := FileKey(user, reminder);
      if k !in files {
        files := files[k := []];
      }
    }

    /** `ok` is false where the INSERT raises (no attachment table). */
    method SaveFileInfoToDatabase(user: UserId, reminder: int, path: BlobRef, name: string) returns (ok: bool)
      modifies this
      ensures ok == (FileKey(user, reminder) in old(files))
      ensures Snapshot() == old(Snapshot()).SaveFile(FileKey(user, reminder), path, name)
    {
      var k := FileKey(user, reminder);
      ok := k in files;
      if ok {
        files := files[k := files[k] + [Attachment(path, name)]];
      }
    }

    method GetAllFilesInfoFromDatabase(k: FileKey) returns (r: Fetched<seq<Attachment>>)
      ensures r == Snapshot().FilesOf(k)
      ensures r.Fetched? <==> k in files
    {
      if k in files {
        r := Fetched(files[k]);
      } else {
        r := NoSuchTable;
      }
    }

    /** `ok` is the function's own True/False; True also when no row had that reference. */
    method DeleteFileFromDatabase(user: UserId, path: BlobRef, reminder: int) returns (ok: bool)
      modifies this
      ensures ok == (FileKey(user, reminder) in old(files))
      ensures Snapshot() == old(Snapshot()).DeleteFile(FileKey(user, reminder), path)
    {
      var k := FileKey(user, reminder);
      ok := k in files;
      if ok {
        files := files[k := WithoutPath(files[k], path)];
      }
    }

    /** `ok` is false where the CREATE TABLE ... AS SELECT raises. */
    method CopyAttachments(from: FileKey, to: FileKey) returns (ok: bool)
      modifies this
      ensures ok == !old(Snapshot()).CopyFails(from, to)
      ensures Snapshot() == old(Snapshot()).CopyFiles(from, to)
    {
      ok := !Snapshot().CopyFails(from, to);
      if to !in files && from in files {
        files := files[to := files[from]];
      }
    }
  }

  lemma FilePathsAppend(fs: seq<Attachment>, a: Attachment)
    ensures FilePaths(fs + [a]) == FilePaths(fs) + [a.filePath]
  {
  }
}
