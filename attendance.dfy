/** The attendance ledger attendance.csv: one (email, date, time) row per
    granted verification, and the per-email history show_attendance prints. */
module Attendance {
  import opened Wrappers
  import opened Csv

  /** One row of attendance.csv; date and time are the already formatted
      strftime strings. */
  datatype Entry = Entry(email: string, date: string, time: string)

  /** The keys of take_attendance's dictionary: the header it writes. */
  const Header: seq<string> := ["email", "date", "time"]

  /** The (date, time) pairs of the rows whose email is `email`, in file order. */
  function History(rows: seq<Entry>, email: string): (h: seq<(string, string)>)
    ensures |h| <= |rows|
  {
    if rows == [] then []
    else (if rows[0].email == email then [(rows[0].date, rows[0].time)] else []) + History(rows[1..], email)
  }

  /** show_attendance: nothing when the file is absent, otherwise the date
      and time of every row whose email equals the argument, in file order. */
  method ShowAttendance(file: Option<Table<Entry>>, email: string) returns (shown: seq<(string, string)>)
    ensures shown == History(Rows(file), email)
  {
    shown := [];
    if file.None? {
      return;
    }
    var rows := file.value.rows;
    for i := 0 to |rows|
      invariant shown == History(rows[..i], email)
    {
      if rows[i].email == email {
        shown := shown + [(rows[i].date, rows[i].time)];
      }
      HistoryAppend(rows[..i], rows[i], email);
      assert rows[..i + 1] == rows[..i] + [rows[i]];
    }
    assert rows[..|rows|] == rows;
  }

  /** One more row extends the history by that row's date and time exactly
      when its email is the one asked about; earlier entries stay as they are. */
  lemma {:induction false} HistoryAppend(rows: seq<Entry>, e: Entry, email: string)
    ensures History(rows + [e], email) ==
            History(rows, email) + (if e.email == email then [(e.date, e.time)] else [])
  {
    if rows != [] {
      assert (rows + [e])[1..] == rows[1..] + [e];
      HistoryAppend(rows[1..], e, email);
    }
  }

  /** Recording k attendances for `email` lengthens its history by exactly
      those k entries, after everything that was there before. */
  lemma {:induction false} HistoryAfterRecords(rows: seq<Entry>, recorded: seq<Entry>, email: string)
    requires forall k :: 0 <= k < |recorded| ==> recorded[k].email == email
    ensures |History(rows + recorded, email)| == |History(rows, email)| + |recorded|
    ensures History(rows + recorded, email)[..|History(rows, email)|] == History(rows, email)
    decreases |recorded|
  {
    if recorded == [] {
      assert rows + recorded == rows;
    } else {
      var last := recorded[|recorded| - 1];
      var front := recorded[..|recorded| - 1];
      assert last.email == email;
      HistoryAfterRecords(rows, front, email);
      assert rows + recorded == (rows + front) + [last];
      HistoryAppend(rows + front, last, email);
    }
  }

  /** A pair is in the history exactly when some row carries that email,
      date and time. */
  lemma {:induction false} HistoryMembers(rows: seq<Entry>, email: string, date: string, time: string)
    ensures (date, time) in History(rows, email) <==>
            exists i :: 0 <= i < |rows| && rows[i] == Entry(email, date, time)
  {
    if rows != [] {
      HistoryMembers(rows[1..], email, date, time);
      if (date, time) in History(rows[1..], email) {
        var i :| 0 <= i < |rows[1..]| && rows[1..][i] == Entry(email, date, time);
        assert rows[i + 1] == Entry(email, date, time);
      }
      if exists i :: 0 <= i < |rows| && rows[i] == Entry(email, date, time) {
        var i :| 0 <= i < |rows| && rows[i] == Entry(email, date, time);
        if i > 0 {
          assert rows[1..][i - 1] == Entry(email, date, time);
        }
      }
    }
  }
}
