/**
 * The rows of a user's reminder table `user_<id>` and of an attachment table
 * `attachments_<user>_<reminder>`, and the row-level effect of the SQL
 * statements the bot issues against them.
 */
module Records {
  import opened Wrappers

  type UserId = int

  /** An opaque reference to a file in remote storage (the `file_path` column). */
  type BlobRef = string

  /**
   * A row of `user_<id>`. `date` counts minutes; the flags are SQLite INTEGER
   * columns, read as truth values where the source tests them with `if`.
   */
  datatype Reminder = Reminder(
    id: int,
    description: string,
    date: int,
    attachmentFolder: int,
    done: int,
    period: int,
    periodicTime: string)

  /** The column default of `periodic_time`. */
  const DefaultPeriodicTime: string := "0 0 0"

  /** A row of an attachment table: the remote reference and the name shown to the user. */
  datatype Attachment = Attachment(filePath: BlobRef, fileName: string)

  /** The `SET` part of the UPDATE statements on a reminder table. */
  datatype Change =
    | SetDone(done: int)
    | SetDescription(description: string)
    | SetDate(date: int)
    | SetPeriodic(periodicTime: string, period: int)
    | SetAttachmentFolder(attachmentFolder: int)

  function Apply(r: Reminder, c: Change): (r': Reminder)
    ensures r'.id == r.id
  {
    match c
    case SetDone(v) => r.(done := v)
    case SetDescription(d) => r.(description := d)
    case SetDate(t) => r.(date := t)
    case SetPeriodic(text, p) => r.(period := p, periodicTime := text)
    case SetAttachmentFolder(v) => r.(attachmentFolder := v)
  }

  /** Row ids strictly increase along the table: the order SQLite returns them in. */
  ghost predicate IdsAscending(rows: seq<Reminder>)
  {
    forall i, j :: 0 <= i < j < |rows| ==> rows[i].id < rows[j].id
  }

  lemma AscendingIdsIdentify(rows: seq<Reminder>, x: Reminder, y: Reminder)
    requires IdsAscending(rows) && x in rows && y in rows && x.id == y.id
    ensures x == y
  {
  }

  /** `UPDATE ... SET c WHERE id = ?`: the rows carrying that id change, nothing else. */
  function UpdateWhere(rows: seq<Reminder>, id: int, c: Change): (r: seq<Reminder>)
    ensures |r| == |rows|
    ensures forall i :: 0 <= i < |rows| ==> r[i] == if rows[i].id == id then Apply(rows[i], c) else rows[i]
  {
    if rows == [] then []
    else [if rows[0].id == id then Apply(rows[0], c) else rows[0]] + UpdateWhere(rows[1..], id, c)
  }

  /** An UPDATE keeps every row's id, so the table stays in id order. */
  lemma UpdateKeepsAscending(rows: seq<Reminder>, id: int, c: Change)
    ensures forall x :: x in UpdateWhere(rows, id, c) ==> exists y :: y in rows && y.id == x.id
    ensures IdsAscending(rows) ==> IdsAscending(UpdateWhere(rows, id, c))
  {
    var r := UpdateWhere(rows, id, c);
    forall x | x in r ensures exists y :: y in rows && y.id == x.id {
      var i :| 0 <= i < |r| && r[i] == x;
      assert rows[i] in rows;
    }
    if IdsAscending(rows) {
      forall i, j | 0 <= i < j < |r| ensures r[i].id < r[j].id {
        assert r[i].id == rows[i].id && r[j].id == rows[j].id;
      }
    }
  }

  /** The 0/1 value that `get_user_reminders` compares `done` with. */
  function DoneFlag(done: bool): int { if done then 1 else 0 }

  /** `SELECT * ... WHERE done = ?`, in table order. */
  function WithDone(rows: seq<Reminder>, flag: int): (r: seq<Reminder>)
    ensures forall x :: x in r <==> x in rows && x.done == flag
    ensures IdsAscending(rows) ==> IdsAscending(r)
  {
    if rows == [] then []
    else if rows[0].done == flag then [rows[0]] + WithDone(rows[1..], flag)
    else WithDone(rows[1..], flag)
  }

  /** `DELETE ... WHERE id = ?`, keeping the order of the remaining rows. */
  function RemoveId(rows: seq<Reminder>, id: int): (r: seq<Reminder>)
    ensures forall x :: x in r <==> x in rows && x.id != id
    ensures IdsAscending(rows) ==> IdsAscending(r)
  {
    if rows == [] then []
    else if rows[0].id == id then RemoveId(rows[1..], id)
    else [rows[0]] + RemoveId(rows[1..], id)
  }

  /** `SELECT * ... WHERE id = ?` followed by `fetchone()`. */
  function Find(rows: seq<Reminder>, id: int): (r: Option<Reminder>)
    ensures r.Some? ==> r.value in rows && r.value.id == id
    ensures r.None? ==> forall x :: x in rows ==> x.id != id
  {
    if rows == [] then None
    else if rows[0].id == id then Some(rows[0])
    else Find(rows[1..], id)
  }

  /** `SELECT MAX(id)` / `ORDER BY id DESC LIMIT 1`: None for an empty table. */
  function MaxId(rows: seq<Reminder>): (r: Option<int>)
    ensures r.None? <==> rows == []
    ensures r.Some? ==> (exists x :: x in rows && x.id == r.value)
    ensures r.Some? ==> forall x :: x in rows ==> x.id <= r.value
  {
    if rows == [] then None
    else match MaxId(rows[1..])
      case None => Some(rows[0].id)
      case Some(m) => Some(if rows[0].id < m then m else rows[0].id)
  }

  /** In a table in id order the largest id is the one of the last row. */
  lemma MaxIdIsLast(rows: seq<Reminder>)
    requires IdsAscending(rows) && rows != []
    ensures MaxId(rows) == Some(rows[|rows| - 1].id)
  {
    var m := MaxId(rows).value;
    var x :| x in rows && x.id == m;
    var last := rows[|rows| - 1];
    assert last in rows;
  }

  /** In a table in id order, Find returns the one row that has the id. */
  lemma FindUnique(rows: seq<Reminder>, id: int, x: Reminder)
    requires IdsAscending(rows)
    ensures Find(rows, id) == Some(x) <==> x in rows && x.id == id
  {
    if x in rows && x.id == id {
      var f := Find(rows, id);
      if f.Some? { AscendingIdsIdentify(rows, f.value, x); }
    }
  }

  /** An UPDATE by id rewrites the row with that id, in the columns it sets only. */
  lemma UpdateChangesRow(rows: seq<Reminder>, id: int, c: Change)
    requires IdsAscending(rows)
    ensures Find(rows, id).None? ==> Find(UpdateWhere(rows, id, c), id).None?
    ensures Find(rows, id).Some? ==> Find(UpdateWhere(rows, id, c), id) == Some(Apply(Find(rows, id).value, c))
  {
    var r := UpdateWhere(rows, id, c);
    if Find(rows, id).Some? {
      var x := Find(rows, id).value;
      var i :| 0 <= i < |rows| && rows[i] == x;
      assert r[i] in r;
      UpdateKeepsAscending(rows, id, c);
      FindUnique(r, id, Apply(x, c));
    } else {
      forall y | y in r ensures y.id != id {
        var i :| 0 <= i < |r| && r[i] == y;
        assert rows[i] in rows;
      }
    }
  }

  /** An UPDATE by id leaves every row with another id as it was. */
  lemma UpdateKeepsOtherRows(rows: seq<Reminder>, id: int, c: Change, other: int)
    requires IdsAscending(rows) && other != id
    ensures Find(UpdateWhere(rows, id, c), other) == Find(rows, other)
  {
    var r := UpdateWhere(rows, id, c);
    if Find(rows, other).Some? {
      var x := Find(rows, other).value;
      var i :| 0 <= i < |rows| && rows[i] == x;
      assert r[i] in r;
      UpdateKeepsAscending(rows, id, c);
      FindUnique(r, other, x);
    } else {
      forall y | y in r ensures y.id != other {
        var i :| 0 <= i < |r| && r[i] == y;
        assert rows[i] in rows;
      }
    }
  }
}
