/**
 * The order of the completed-reminders list: `sorted(reminders, key=date,
 * reverse=True)`. Python's sort is stable also with `reverse=True`, so rows
 * with the same date keep the order the table gave them.
 */
module Ordering {
  import opened Records

  /** Puts `x` in front of the first row whose date is not later than its own. */
  function InsertByDate(x: Reminder, rows: seq<Reminder>): (r: seq<Reminder>)
    ensures multiset(r) == multiset(rows) + multiset{x}
    ensures forall y :: y in r <==> y == x || y in rows
  {
    if rows == [] || rows[0].date <= x.date then [x] + rows
    else
      assert rows == [rows[0]] + rows[1..];
      [rows[0]] + InsertByDate(x, rows[1..])
  }

  /** The rows, latest date first; an insertion sort that inserts earlier rows last. */
  function LatestFirst(rows: seq<Reminder>): seq<Reminder>
  {
    if rows == [] then [] else InsertByDate(rows[0], LatestFirst(rows[1..]))
  }

  ghost predicate DatesDescending(rows: seq<Reminder>)
  {
    forall i, j :: 0 <= i < j < |rows| ==> rows[i].date >= rows[j].date
  }

  /** The rows dated `d`, in their order. */
  function OnDate(rows: seq<Reminder>, d: int): seq<Reminder>
  {
    if rows == [] then []
    else (if rows[0].date == d then [rows[0]] else []) + OnDate(rows[1..], d)
  }

  lemma {:induction false} InsertKeepsDescending(x: Reminder, rows: seq<Reminder>)
    requires DatesDescending(rows)
    ensures DatesDescending(InsertByDate(x, rows))
  {
    if rows == [] || rows[0].date <= x.date {
    } else {
      var tail := InsertByDate(x, rows[1..]);
      InsertKeepsDescending(x, rows[1..]);
      forall y | y in tail ensures rows[0].date >= y.date {
        if y != x {
          var k :| 0 <= k < |rows[1..]| && rows[1..][k] == y;
          assert rows[k + 1] == y;
        }
      }
      var r := [rows[0]] + tail;
      forall i, j | 0 <= i < j < |r| ensures r[i].date >= r[j].date {
        if i == 0 {
          assert r[j] == tail[j - 1] && tail[j - 1] in tail;
        } else {
          assert r[i] == tail[i - 1] && r[j] == tail[j - 1];
        }
      }
    }
  }

  /** The completed list is in date order, latest first. */
  lemma {:induction false} LatestFirstDescending(rows: seq<Reminder>)
    ensures DatesDescending(LatestFirst(rows))
  {
    if rows != [] {
      LatestFirstDescending(rows[1..]);
      InsertKeepsDescending(rows[0], LatestFirst(rows[1..]));
    }
  }

  /** The completed list shows every fetched row exactly once. */
  lemma {:induction false} LatestFirstPermutes(rows: seq<Reminder>)
    ensures multiset(LatestFirst(rows)) == multiset(rows)
  {
    if rows != [] {
      LatestFirstPermutes(rows[1..]);
      assert rows == [rows[0]] + rows[1..];
    }
  }

  lemma {:induction false} InsertOnDate(x: Reminder, rows: seq<Reminder>, d: int)
    ensures OnDate(InsertByDate(x, rows), d) ==
      (if x.date == d then [x] else []) + OnDate(rows, d)
  {
    if rows == [] || rows[0].date <= x.date {
      assert ([x] + rows)[1..] == rows;
    } else {
      InsertOnDate(x, rows[1..], d);
      assert ([rows[0]] + InsertByDate(x, rows[1..]))[1..] == InsertByDate(x, rows[1..]);
    }
  }

  /** Rows sharing a date keep their table order (the sort is stable). */
  lemma {:induction false} LatestFirstStable(rows: seq<Reminder>, d: int)
    ensures OnDate(LatestFirst(rows), d) == OnDate(rows, d)
  {
    if rows != [] {
      LatestFirstStable(rows[1..], d);
      InsertOnDate(rows[0], LatestFirst(rows[1..]), d);
    }
  }
}
