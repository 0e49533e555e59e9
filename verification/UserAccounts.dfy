/**
 * The table-text account listings (`modules/user_accounts.py`): the output of
 * `Format-Table -HideTableHeaders` is read line by line; each non-blank line
 * is stripped and split at every run of two or more whitespace characters,
 * and a line with at least two columns becomes a record. When the PowerShell
 * command fails, the listing is an error text instead, also logged at error
 * level.
 */
module UserAccounts {
  import opened Wrappers
  import opened Text
  import opened Logging

  /** The `{'name', 'enabled', 'last_logon'}` dictionary of a local user. */
  datatype UserRecord = UserRecord(name: string, enabled: string, lastLogon: string)

  /** The `{'name', 'source'}` dictionary of an Administrators group member. */
  datatype AdminRecord = AdminRecord(name: string, source: string)

  /**
   * What `subprocess.check_output` does: it returns the command's text, or
   * raises `CalledProcessError`, whose text is `error`.
   */
  datatype CommandResult = Completed(stdout: string) | Failed(error: string)

  /** A listing function returns its records, or an error text in their place. */
  datatype Listing<T> = Records(records: seq<T>) | ErrorText(message: string)

  const UserErrorPrefix := "Error listing user accounts: "
  const AdminErrorPrefix := "Error listing admin users: "

  // ---------------------------------------------------------------------
  // One line
  // ---------------------------------------------------------------------

  /**
   * The record one line of `Get-LocalUser` table text gives: none for a
   * blank line or a line with fewer than two columns; otherwise the first
   * two columns, and the third as the last logon ("Never" without one).
   */
  function UserRow(line: string): Option<UserRecord> {
    var s := Strip(line);
    if s == [] then None
    else
      var parts := SplitColumns(s);
      if |parts| < 2 then None
      else Some(UserRecord(parts[0], parts[1], if |parts| > 2 then parts[2] else "Never"))
  }

  /**
   * The record one line of `Get-LocalGroupMember` table text gives: none for
   * a blank line or a line with fewer than two columns; otherwise the first
   * two columns as name and source.
   */
  function AdminRow(line: string): Option<AdminRecord> {
    var s := Strip(line);
    if s == [] then None
    else
      var parts := SplitColumns(s);
      if |parts| < 2 then None
      else Some(AdminRecord(parts[0], parts[1]))
  }

  /** Blank and whitespace-only lines give no record. */
  lemma BlankLineSkipped(line: string)
    requires AllSpace(line)
    ensures UserRow(line) == None && AdminRow(line) == None
  {
    StripTrims(line);
  }

  /**
   * Every field of a record is a column: non-empty, without whitespace at
   * either end and with no two whitespace characters in a row.
   */
  lemma RowFieldsAreCells(line: string)
    ensures UserRow(line).Some? ==>
      var r := UserRow(line).value;
      IsCell(r.name) && IsCell(r.enabled) && IsCell(r.lastLogon)
    ensures AdminRow(line).Some? ==>
      var r := AdminRow(line).value;
      IsCell(r.name) && IsCell(r.source)
  {
    var s := Strip(line);
    StripTrims(line);
    if s != [] {
      ColumnsAreCells(s);
      assert IsCell("Never") by {
        assert !IsSpace("Never"[0]) && !IsSpace("Never"[4]);
      }
    }
  }

  /**
   * A line holding the columns `cells`, separated by gaps of two or more
   * whitespace characters of any width and padded with whitespace at either
   * end: with two or more columns it gives the record of its first two (or
   * three) columns, and further columns are ignored.
   */
  lemma RowOfColumns(pre: string, cells: seq<string>, gaps: seq<string>, post: string, line: string)
    requires AllSpace(pre) && AllSpace(post)
    requires |cells| >= 2 && |gaps| == |cells| - 1
    requires forall i :: 0 <= i < |cells| ==> IsCell(cells[i])
    requires forall i :: 0 <= i < |gaps| ==> IsGap(gaps[i])
    requires line == pre + Interleave(cells, gaps) + post
    ensures UserRow(line) == Some(UserRecord(cells[0], cells[1], if |cells| > 2 then cells[2] else "Never"))
    ensures AdminRow(line) == Some(AdminRecord(cells[0], cells[1]))
  {
    var core := Interleave(cells, gaps);
    InterleaveTrimmed(cells, gaps);
    StripPadded(pre, core, post);
    SplitColumnsInterleave(cells, gaps, core);
  }

  /** A `Get-LocalUser` row padded to its column widths, with no last-logon column. */
  lemma PaddedGuestRow()
    ensures UserRow(" Guest   False ") == Some(UserRecord("Guest", "False", "Never"))
  {
    var cells := ["Guest", "False"];
    var gap := "   ";
    assert IsCell(cells[0]) && IsCell(cells[1]);
    assert IsGap(gap);
    assert Interleave(cells, [gap]) == cells[0] + gap + cells[1];
    RowOfColumns(" ", cells, [gap], " ", " Guest   False ");
  }

  /** A line with a single column, however padded, is dropped. */
  lemma SingleColumnDropped(pre: string, cell: string, post: string)
    requires AllSpace(pre) && AllSpace(post) && IsCell(cell)
    ensures UserRow(pre + cell + post) == None && AdminRow(pre + cell + post) == None
  {
    StripPadded(pre, cell, post);
    SplitColumnsInterleave([cell], [], cell);
  }

  // ---------------------------------------------------------------------
  // All lines
  // ---------------------------------------------------------------------

  /** The records the lines give, in line order. */
  function Collect<T>(lines: seq<string>, parse: string -> Option<T>): seq<T> {
    if lines == [] then []
    else
      var n := |lines| - 1;
      Collect(lines[..n], parse) + (match parse(lines[n]) case Some(r) => [r] case None => [])
  }

  /** One more line adds its record, if it gives one, at the end. */
  lemma CollectSnoc<T>(lines: seq<string>, line: string, parse: string -> Option<T>)
    ensures Collect(lines + [line], parse) ==
      Collect(lines, parse) + (match parse(line) case Some(r) => [r] case None => [])
  {
    assert (lines + [line])[..|lines|] == lines;
  }

  /** Collecting distributes over concatenation: records keep their lines' order. */
  lemma {:induction false} CollectAppend<T>(a: seq<string>, b: seq<string>, parse: string -> Option<T>)
    ensures Collect(a + b, parse) == Collect(a, parse) + Collect(b, parse)
    decreases |b|
  {
    if b == [] {
      assert a + b == a;
    } else {
      var n := |b| - 1;
      assert (a + b)[..|a| + n] == a + b[..n];
      assert (a + b)[|a| + n] == b[n];
      CollectAppend(a, b[..n], parse);
    }
  }

  /**
   * A record is collected exactly when some line gives it, and there are
   * never more records than lines.
   */
  lemma {:induction false} CollectMembers<T>(lines: seq<string>, parse: string -> Option<T>, r: T)
    ensures r in Collect(lines, parse) <==> exists i :: 0 <= i < |lines| && parse(lines[i]) == Some(r)
    ensures |Collect(lines, parse)| <= |lines|
    decreases |lines|
  {
    if lines != [] {
      var n := |lines| - 1;
      var front := lines[..n];
      CollectMembers(front, parse, r);
      if exists i :: 0 <= i < |front| && parse(front[i]) == Some(r) {
        var i :| 0 <= i < |front| && parse(front[i]) == Some(r);
        assert lines[i] == front[i];
      }
      if i :| 0 <= i < |lines| && parse(lines[i]) == Some(r) {
        if i < n {
          assert front[i] == lines[i];
        }
      }
    }
  }

  /**
   * The loop both listings run: each line's record, if it gives one, is
   * appended in line order.
   */
  method CollectRecords<T>(lines: seq<string>, parse: string -> Option<T>) returns (records: seq<T>)
    ensures records == Collect(lines, parse)
  {
    records := [];
    var i := 0;
    while i < |lines|
      invariant 0 <= i <= |lines|
      invariant records == Collect(lines[..i], parse)
    {
      var row := parse(lines[i]);
      if row.Some? {
        records := records + [row.value];
      }
      assert lines[..i + 1] == lines[..i] + [lines[i]];
      CollectSnoc(lines[..i], lines[i], parse);
      i := i + 1;
    }
    assert lines[..i] == lines;
  }

  /**
   * `list_user_accounts`: the records of the command's lines, in order, or
   * the error text, which is also logged at error level.
   */
  method ListUserAccounts(run: CommandResult) returns (result: Listing<UserRecord>, log: seq<Event>)
    ensures run.Completed? ==> result == Records(Collect(SplitLines(run.stdout), UserRow)) && log == []
    ensures run.Failed? ==>
      && result == ErrorText(UserErrorPrefix + run.error)
      && log == [Event(Error, UserErrorPrefix + run.error)]
  {
    if run.Failed? {
      var message := UserErrorPrefix + run.error;
      return ErrorText(message), [Event(Error, message)];
    }
    var users := CollectRecords(SplitLines(run.stdout), UserRow);
    return Records(users), [];
  }

  /**
   * `list_admin_users`: the records of the command's lines, in order, or
   * the error text, which is also logged at error level.
   */
  method ListAdminUsers(run: CommandResult) returns (result: Listing<AdminRecord>, log: seq<Event>)
    ensures run.Completed? ==> result == Records(Collect(SplitLines(run.stdout), AdminRow)) && log == []
    ensures run.Failed? ==>
      && result == ErrorText(AdminErrorPrefix + run.error)
      && log == [Event(Error, AdminErrorPrefix + run.error)]
  {
    if run.Failed? {
      var message := AdminErrorPrefix + run.error;
      return ErrorText(message), [Event(Error, message)];
    }
    var admins := CollectRecords(SplitLines(run.stdout), AdminRow);
    return Records(admins), [];
  }

  /** Lines that each give a record, give exactly those records. */
  lemma {:induction false} CollectAll<T>(lines: seq<string>, parse: string -> Option<T>, records: seq<T>)
    requires |lines| == |records|
    requires forall k :: 0 <= k < |lines| ==> parse(lines[k]) == Some(records[k])
    ensures Collect(lines, parse) == records
    decreases |lines|
  {
    if lines != [] {
      var n := |lines| - 1;
      CollectAll(lines[..n], parse, records[..n]);
      assert records == records[..n] + [records[n]];
    }
  }

  /**
   * One row of `Format-Table` text: whitespace indentation, the columns with
   * a gap of two or more whitespace characters between neighbours, and
   * trailing whitespace.
   */
  datatype TableRow = TableRow(indent: string, cells: seq<string>, gaps: seq<string>, trail: string)

  /** A row with at least two columns, none of its parts holding a line break. */
  predicate IsRecordRow(r: TableRow) {
    && AllSpace(r.indent) && NoLineBreak(r.indent)
    && AllSpace(r.trail) && NoLineBreak(r.trail)
    && |r.cells| >= 2 && |r.gaps| == |r.cells| - 1
    && (forall i :: 0 <= i < |r.cells| ==> IsCell(r.cells[i]) && NoLineBreak(r.cells[i]))
    && (forall i :: 0 <= i < |r.gaps| ==> IsGap(r.gaps[i]) && NoLineBreak(r.gaps[i]))
  }

  /** The text of one row. */
  function RowText(r: TableRow): string
    requires IsRecordRow(r)
  {
    r.indent + Interleave(r.cells, r.gaps) + r.trail
  }

  /** The lines of a table, one per row. */
  function TableLines(rows: seq<TableRow>): (lines: seq<string>)
    requires forall k :: 0 <= k < |rows| ==> IsRecordRow(rows[k])
    ensures |lines| == |rows|
    ensures forall k :: 0 <= k < |rows| ==> lines[k] == RowText(rows[k])
  {
    if rows == [] then [] else TableLines(rows[..|rows| - 1]) + [RowText(rows[|rows| - 1])]
  }

  /** The user records a table stands for: one per row, from its first three columns. */
  function UserRecords(rows: seq<TableRow>): (users: seq<UserRecord>)
    requires forall k :: 0 <= k < |rows| ==> |rows[k].cells| >= 2
    ensures |users| == |rows|
    ensures forall k :: 0 <= k < |rows| ==>
      var c := rows[k].cells;
      users[k] == UserRecord(c[0], c[1], if |c| > 2 then c[2] else "Never")
  {
    if rows == [] then []
    else
      var c := rows[|rows| - 1].cells;
      UserRecords(rows[..|rows| - 1]) + [UserRecord(c[0], c[1], if |c| > 2 then c[2] else "Never")]
  }

  /** The administrator records a table stands for: one per row, from its first two columns. */
  function AdminRecords(rows: seq<TableRow>): (admins: seq<AdminRecord>)
    requires forall k :: 0 <= k < |rows| ==> |rows[k].cells| >= 2
    ensures |admins| == |rows|
    ensures forall k :: 0 <= k < |rows| ==> admins[k] == AdminRecord(rows[k].cells[0], rows[k].cells[1])
  {
    if rows == [] then []
    else
      var c := rows[|rows| - 1].cells;
      AdminRecords(rows[..|rows| - 1]) + [AdminRecord(c[0], c[1])]
  }

  /** Every row's text is one line. */
  lemma RowTextIsLine(r: TableRow)
    requires IsRecordRow(r)
    ensures NoLineBreak(RowText(r))
  {
    InterleaveNoLineBreak(r.cells, r.gaps);
    var core := Interleave(r.cells, r.gaps);
    var s := RowText(r);
    forall i | 0 <= i < |s|
      ensures !IsLineBreak(s[i])
    {
      if i < |r.indent| {
        assert s[i] == r.indent[i];
      } else if i < |r.indent| + |core| {
        assert s[i] == core[i - |r.indent|];
      } else {
        assert s[i] == r.trail[i - |r.indent| - |core|];
      }
    }
  }

  /**
   * The command's output for a table whose rows each have two or more
   * columns, each line ended by a newline, is read back as exactly the
   * records of its rows, one per row, in row order, whatever the column
   * widths and padding.
   */
  lemma ListingOfRows(rows: seq<TableRow>)
    requires forall k :: 0 <= k < |rows| ==> IsRecordRow(rows[k])
    ensures Collect(SplitLines(Terminated(TableLines(rows))), UserRow) == UserRecords(rows)
    ensures Collect(SplitLines(Terminated(TableLines(rows))), AdminRow) == AdminRecords(rows)
  {
    var lines := TableLines(rows);
    forall k | 0 <= k < |lines|
      ensures NoLineBreak(lines[k])
    {
      RowTextIsLine(rows[k]);
    }
    SplitLinesTerminated(lines);
    forall k | 0 <= k < |rows|
      ensures UserRow(lines[k]) == Some(UserRecords(rows)[k])
      ensures AdminRow(lines[k]) == Some(AdminRecords(rows)[k])
    {
      var r := rows[k];
      assert IsRecordRow(r);
      RowOfColumns(r.indent, r.cells, r.gaps, r.trail, lines[k]);
    }
    CollectAll(lines, UserRow, UserRecords(rows));
    CollectAll(lines, AdminRow, AdminRecords(rows));
  }
}
