# WinSecMon text-normalisation core in Dafny

WinSecMon runs Windows diagnostic commands (PowerShell, `netstat`, `wmic`) and
logs or tabulates what they print. This project models the layer in between:
the code that turns a command's raw text, or its already-decoded JSON, into
records, name lists, log events and report lines. It then proves what that
code guarantees.

Each command's output is an input to the model; for the table-text listings and the `netstat` check, so is the failure the source catches. Log output is
a returned sequence of `Event(level, message)` values.

| file | models |
|---|---|
| `Wrappers.dfy` | `Option` |
| `Logging.dfy` | the four log levels the code uses and a log event |
| `Text.dfy` | the Python `str` operations the core relies on: `isspace` (one whitespace predicate, CPython's set), `strip()`, `splitlines()`, `split(sep)` with one-character separators, `split()`, `re.split(r'\s{2,}', …)`, `sep.join(…)` and the substring test `t in s` |
| `Json.dfy` | a decoded `ConvertTo-Json` value: Python truthiness, `dict.get`, and wrapping a single value into a list |
| `UserAccounts.dfy` | `modules/user_accounts.py`: the table-text user and administrator listings |
| `UserAudit.dfy` | `audits/user_audit.py`: list normalisation, the weak/expired classification, the creation-time history and the summary-table rows |
| `RemoteAccess.dfy` | `modules/remote_access.py`: the `netstat` partition, port flagging, section logging and the "nothing found" warning |
| `ReportGenerator.dfy` | `split_long_line` from `modules/report_generator.py` |

The loops the source writes stay loops, each proved against a specification
function:

- `CollectRecords`: the line loops of the two listings.
- `CheckPasswordStrength` and `GetAccountCreationDates`: the account loops.
- `PartitionConnections` and `ReportConnections`: the `netstat` loops.
- `SplitLongLine`: the nested `while` loop.

Lemmas then prove the promised properties about those specification functions.

A few facts about the code shape the model:

- A table line with fewer than two columns is dropped without being counted or reported.
- The table-text listings catch only `CalledProcessError`; no other failure of the command becomes an error text.
- The JSON audit functions catch only `JSONDecodeError`, so an element that is not an object, or a SID that is truthy but not a string, raises `AttributeError` out of them.
- The audit's "expired" list holds the accounts whose password never expires and that are enabled.

## Model

| member | source | states |
|---|---|---|
| Text.StripTrims | modules/user_accounts.py:17-18 | `strip()` gives a trimmed slice of the line with only whitespace cut off either end; it is empty exactly for a blank line and leaves a trimmed line unchanged |
| Text.StripPadded | modules/user_accounts.py:18 | stripping whitespace padding around trimmed text gives back that text |
| Text.SplitLinesTerminated | modules/user_accounts.py:16 | `splitlines()` of lines each ended by a newline gives back exactly those lines |
| Text.ColumnsAreCells | modules/user_accounts.py:18 | every field of `re.split(r'\s{2,}', …)` on a stripped non-empty line is non-empty, trimmed, and has no two whitespace characters in a row |
| Text.SplitColumnsInterleave | modules/user_accounts.py:18 | such fields, separated by gaps of two or more whitespace characters of any width, split back into exactly the same fields |
| Text.InterleaveTrimmed | modules/user_accounts.py:18 | such fields set between whitespace gaps form a non-empty line with no outer whitespace, so `strip()` leaves it unchanged |
| Text.SplitOnParts | audits/user_audit.py:103 | `s.split(sep)` has more than one piece iff `sep` occurs in `s`; no piece holds `sep`; joining the pieces with `sep` gives `s` back |
| Text.SplitOnJoin | audits/user_audit.py:103-105 | pieces free of `sep`, joined with `sep`, split back into the same pieces |
| Text.WordsKeepCharacters | modules/report_generator.py:21 | `split()` loses exactly the whitespace: its words concatenate to the text's other characters |
| Text.WordsOfJoin | modules/report_generator.py:21-26 | non-empty whitespace-free words joined by single spaces split back into the same words |
| Text.WordsOfBlank | modules/report_generator.py:21 | `split()` finds no word iff the text is blank |
| Text.JoinWordsShape | modules/report_generator.py:26 | words joined by single spaces have no outer whitespace, never two whitespace characters in a row, only plain spaces, and are empty iff there are no words |
| Text.ContainsIff | modules/remote_access.py:20-22 | the substring test `t in s` holds iff `t` occurs at some position of `s` |
| UserAccounts.BlankLineSkipped | modules/user_accounts.py:16-17 | a blank or whitespace-only line gives neither a user nor an administrator record |
| UserAccounts.RowFieldsAreCells | modules/user_accounts.py:18-24 | every field of a record is a column: non-empty, no outer whitespace, single spaces inside; the `'Never'` default is one too |
| UserAccounts.RowOfColumns | modules/user_accounts.py:18-24 | a line holding two or more columns, with gaps of two or more whitespace characters of any width between them and any whitespace padding at either end, gives the user record (name, enabled, third column or `'Never'`) and the admin record (name, source) of its first columns; later columns are ignored |
| UserAccounts.SingleColumnDropped | modules/user_accounts.py:18-19 | a line with a single column is dropped by both listings |
| UserAccounts.CollectAppend | modules/user_accounts.py:15-25 | the records of two blocks of lines are the first block's records followed by the second's: order follows the lines |
| UserAccounts.CollectMembers | modules/user_accounts.py:15-25 | a record is listed iff some line gives it, and there are never more records than lines |
| UserAccounts.CollectRecords | modules/user_accounts.py:15-25 | the line loop appends each line's record, if any, in line order, giving exactly the specification's record list |
| UserAccounts.ListUserAccounts | modules/user_accounts.py:10-28 | on success, the records of the output's lines with nothing logged; on `CalledProcessError`, the error text returned in place of a list and also logged at error level |
| UserAccounts.ListAdminUsers | modules/user_accounts.py:58-75 | the same for the Administrators group: records on success, the error text returned and logged at error level on failure |
| UserAccounts.ListingOfRows | modules/user_accounts.py:15-25 | the command's output for a table of rows with two or more columns each, whatever the column widths and padding, each line ended by a newline, is read back as exactly the records of its rows, one per row, in row order |
| UserAccounts.PaddedGuestRow | modules/user_accounts.py:17-24 | a padded row `" Guest   False "` with a three-space gap gives the user record (`Guest`, `False`, `Never`) |
| UserAudit.DecodedList | audits/user_audit.py:11-15 | a decoded list is used as it is, any other decoded value becomes a one-element list, and undecodable output gives the empty list |
| UserAudit.MissingFieldDefaults | audits/user_audit.py:56-59 | a missing Name reads as "Unknown"; a missing PasswordRequired means not weak; missing PasswordExpires and Disabled mean expired |
| UserAudit.NamesWhereAppend | audits/user_audit.py:55-67 | the names of selected users from two blocks are the first block's followed by the second's: input order is kept |
| UserAudit.NamesWhereMembers | audits/user_audit.py:55-67 | a name is listed iff some selected user carries it; the list is never longer than the user list |
| UserAudit.InBothLists | audits/user_audit.py:62-67 | the weak and expired tests are independent: a user passing both is listed in both |
| UserAudit.CheckPasswordStrength | audits/user_audit.py:42-72 | the weak names (PasswordRequired falsy) and expired names (PasswordExpires and Disabled both falsy) in input order, or the `AttributeError` raised by a non-object element; undecodable output gives two empty lists |
| UserAudit.LastField | audits/user_audit.py:105 | `split(",")[-1]` is a comma-free suffix of the line, directly after a comma when shorter than the line |
| UserAudit.CreationTimeFound | audits/user_audit.py:103-104 | a creation time is found iff the stripped `wmic` output has a second line |
| UserAudit.LastPieceIsSuffix | audits/user_audit.py:105 | the last piece of a join is a suffix of it, right after the separator when there are several pieces |
| UserAudit.CreationTimeOfCsv | audits/user_audit.py:103-105 | for a CSV header line and one row, however padded, the creation time is the row's last cell |
| UserAudit.AccountCreationMember | audits/user_audit.py:91-106 | an account adds an entry iff its SID is truthy and its query gives a creation time; the entry carries its name (default "Unknown") and that time |
| UserAudit.CreationHistoryMembers | audits/user_audit.py:90-106 | the history holds exactly the entries the accounts add, at most one per account; accounts with a missing or empty SID add nothing |
| UserAudit.GetAccountCreationDates | audits/user_audit.py:83-111 | the creation history of the decoded accounts in order, or the `AttributeError` raised by a non-object element or a truthy non-string SID; undecodable output gives an empty history |
| UserAudit.RecordCreation | audits/user_audit.py:91-106 | one pass of the account loop: the account's contribution to the history, or the `AttributeError` its `get` or `split` raises |
| UserAudit.UserTable | audits/user_audit.py:119 | one row per user in order, holding Name (default "Unknown"), Enabled (default None) and LastLogon (default "Never"); a non-object element raises `AttributeError` |
| UserAudit.AdminTable | audits/user_audit.py:126 | one single-cell row per administrator in order, Name defaulting to "Unknown"; a non-object element raises `AttributeError` |
| UserAudit.SingleAccountTable | audits/user_audit.py:12-13 | a single decoded account is tabulated exactly like a one-element list holding it |
| RemoteAccess.MatchingAppend | modules/remote_access.py:19-23 | the matching lines of two blocks are the first block's followed by the second's: input order is kept |
| RemoteAccess.MatchingMembers | modules/remote_access.py:19-23 | a line is kept iff it is one of the lines and contains the word; no more lines are kept than given |
| RemoteAccess.PartitionConnections | modules/remote_access.py:14-23 | the listening list is exactly the lines containing `LISTEN` and the established list exactly those containing `ESTABLISHED`, both in input order |
| RemoteAccess.PartitionIndependent | modules/remote_access.py:20-23 | a line containing both words lands in both lists; a line containing neither lands in none |
| RemoteAccess.PortEventsAt | modules/remote_access.py:28-32 | the k-th listening line is the k-th event, at info level iff it contains `22`, `3389`, `80` or `443` as a substring, otherwise at debug level |
| RemoteAccess.ConnectionEventsAt | modules/remote_access.py:36-37 | the k-th established line is the k-th event, at info level |
| RemoteAccess.NoWarningsIn | modules/remote_access.py:26-37 | neither section logs anything at warning level |
| RemoteAccess.WarningIffNothingFound | modules/remote_access.py:40-41 | the "No remote access connections found." warning is logged iff both lists are empty |
| RemoteAccess.ReportSections | modules/remote_access.py:26-41 | each header is logged iff its list is non-empty, first in its section, the listening section first; the event count is the headers plus the lines, or the one warning |
| RemoteAccess.ReportConnections | modules/remote_access.py:26-41 | the logging loops produce exactly the specified sections and warning |
| RemoteAccess.AuditRemoteAccess | modules/remote_access.py:4-44 | the opening info event; then, if running `netstat` raises (it cannot be run or its output cannot be decoded), the error event; otherwise the port-check info event followed by the report on the partitioned output lines |
| RemoteAccess.SubstringPortMatch | modules/remote_access.py:29 | matching is by substring: lines for port 8080 and for port 50221 both count as remote-access ports |
| ReportGenerator.ChunksShape | modules/report_generator.py:22-25 | a word's pieces spell the word; none is longer than `max_length`; all but the last are exactly `max_length` long; the pieces are non-empty and whitespace-free when the word is |
| ReportGenerator.ShortWordKept | modules/report_generator.py:22-25 | a word no longer than `max_length` is one unchanged piece |
| ReportGenerator.ChunkCount | modules/report_generator.py:22-25 | a non-empty word of length L is cut into ceil(L / `max_length`) pieces |
| ReportGenerator.PiecesAppend | modules/report_generator.py:21-25 | the pieces of two word blocks are the first block's followed by the second's: words keep their order |
| ReportGenerator.PiecesAreShortWords | modules/report_generator.py:21-25 | every piece is non-empty, whitespace-free and at most `max_length` long; there are pieces iff there are words |
| ReportGenerator.PiecesKeepCharacters | modules/report_generator.py:21-25 | the pieces concatenate to the words' concatenation: no character is lost, added or moved |
| ReportGenerator.ShortWordsKept | modules/report_generator.py:22-25 | words that are all short enough are left as they are |
| ReportGenerator.WrappedWords | modules/report_generator.py:20-26 | splitting the result on whitespace gives back exactly the pieces |
| ReportGenerator.WrappedContents | modules/report_generator.py:20-26 | the result's words are non-empty and at most `max_length` long, and its non-whitespace characters are the input's, in order |
| ReportGenerator.WrappedShape | modules/report_generator.py:21-26 | the result has no outer whitespace and exactly one plain space between pieces; it is `""` iff the input is blank |
| ReportGenerator.WrappedIdempotent | modules/report_generator.py:18-26 | applied to its own output with the same `max_length`, the function returns that output unchanged |
| ReportGenerator.ShortLineKept | modules/report_generator.py:18-26 | a line of short words one space apart comes back unchanged |
| ReportGenerator.LongWordCut | modules/report_generator.py:21-26 | a single long word comes back as its pieces, one space apart |
| ReportGenerator.SplitLongLine | modules/report_generator.py:18-26 | the nested loop yields the pieces of every word, in order, one space apart: its words are the pieces, each at most `max_length` long, and it keeps every non-whitespace character in order; `max_length` must be at least 1 |

## Left out

- Process I/O is not modelled. `subprocess.check_output`, `subprocess.run`, PowerShell, `net accounts`, `netstat` and `wmic` are inputs to the model: their text, a function from SID to `wmic` output, or, where the source catches it, their failure.
- `json.loads` is not modelled. Its result is the `Decoded` input: a value, or a decode failure.
- JSON numbers are whole numbers only. A fractional number is not represented, so a fractional field value is a case the model does not cover. The audit tests some fields for truthiness (`PasswordRequired`, `PasswordExpires`, `Disabled`, `SID`) and copies others (`Name`, `Enabled`, `LastLogon`) unchanged into the name lists, the creation history and the table cells.
- `print`, `tabulate` grid rendering, the `logging` sinks, and the PDF class and `generate_pdf_report` in `modules/report_generator.py` are not modelled. The table rows and log events they receive are modelled.
- `check_password_policies` and `review_account_history` in `modules/user_accounts.py` are not part of this model. The first runs three commands and returns a tuple of their three output texts; the second runs one command and returns its output text. On `CalledProcessError` each logs its error text at error level and returns that text.
- `audit_user_accounts` in `modules/user_accounts.py` is not part of this model. It logs each listed user and administrator as a formatted line, logs a listing's error text a second time at error level, unpacks the result of `check_password_policies` into three values (which fails when that result is an error text), and logs the policy and history outputs as they are.
- `check_password_policy` and the printing in `run_audit` in `audits/user_audit.py`, and the other modules that only log a command's output, are not part of this model.
- ListUserAccounts, ListAdminUsers: exceptions other than `CalledProcessError` propagate in the source, for example when PowerShell is missing. They are not modelled.
- AuditRemoteAccess: every exception raised by `subprocess.run`, whether `netstat` cannot be run or its output cannot be decoded as text, is the one `RunFailed` case, and its text `{e}` is the `error` input. The rest of the `try` block does not raise on a string output.
- GetAccountCreationDates, CheckPasswordStrength, DecodedList: an exception raised by `subprocess.run` (PowerShell cannot be run, or its output cannot be decoded as text) is not modelled. In the source it escapes the function, since only `JSONDecodeError` is caught; when the per-SID query raises partway through the account loop, the history built so far is lost. `Decoded` is only a value or a decode failure, and the `wmic` parameter always returns text.
- GetAccountCreationDates: the RID computed from the SID is never used. Only the `AttributeError` its `split` raises on a truthy non-string SID is modelled. The quoting of the SID into the `wmic` command line is not modelled.
- SplitLongLine: the default `max_length=100` is not modelled; `maxLength` is always passed, as the only caller passes 80.
- SplitLongLine: `max_length` below 1 is excluded by its precondition. For such a value the source's inner loop never ends on a text with at least one word; on a blank text the source still returns `""`, and the precondition excludes that terminating case too.
- Python's `str` is modelled as a sequence of characters. Surrogate pairs and Unicode normalisation are not modelled.
