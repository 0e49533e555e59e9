/**
 * The JSON-based user audit (`audits/user_audit.py`): listing users and
 * administrators from `ConvertTo-Json` output, sorting accounts into the
 * "weak" and "expired" name lists, collecting account creation times from
 * `wmic` CSV output, and building the summary table rows.
 *
 * Each PowerShell command's output arrives already decoded (`Decoded`); the
 * per-account `wmic` query is the parameter `wmic`, from a SID to the text
 * the query prints.
 */
module UserAudit {
  import opened Wrappers
  import opened Text
  import opened Json

  /** How an audit function ends: with its value, or with a Python exception escaping it. */
  datatype Outcome<T> = Returned(value: T) | Raised(exception: string)

  /** Raised by `user.get(...)` on a decoded element that is not an object. */
  const AttributeError := "AttributeError"

  // ---------------------------------------------------------------------
  // Listing users and administrators
  // ---------------------------------------------------------------------

  /**
   * The list `list_user_accounts` and `list_admin_users` return: a decoded
   * list as it is, any other decoded value as a one-element list, and the
   * empty list when the output does not decode.
   */
  function DecodedList(output: Decoded): (users: seq<Value>)
    ensures output.Undecodable? ==> users == []
    ensures output.Parsed? && output.value.Array? ==> users == output.value.items
    ensures output.Parsed? && !output.value.Array? ==> users == [output.value]
  {
    if output.Parsed? then AsList(output.value) else []
  }

  // ---------------------------------------------------------------------
  // Field readings with their defaults
  // ---------------------------------------------------------------------

  /** `user.get("Name", "Unknown")`. */
  function NameOf(user: Value): Value {
    if user.Object? then Get(user, "Name", Str("Unknown")) else Str("Unknown")
  }

  /** `not user.get("PasswordRequired", True)`: the account needs no password. */
  predicate IsWeak(user: Value) {
    user.Object? && !Truthy(Get(user, "PasswordRequired", Bool(true)))
  }

  /**
   * `not user.get("PasswordExpires", False) and not user.get("Disabled", False)`:
   * the password never expires and the account is enabled.
   */
  predicate IsExpired(user: Value) {
    user.Object?
    && !Truthy(Get(user, "PasswordExpires", Bool(false)))
    && !Truthy(Get(user, "Disabled", Bool(false)))
  }

  /** Missing fields take the defaults the audit gives them. */
  lemma MissingFieldDefaults(members: map<string, Value>)
    ensures "Name" !in members ==> NameOf(Object(members)) == Str("Unknown")
    ensures "PasswordRequired" !in members ==> !IsWeak(Object(members))
    ensures "PasswordExpires" !in members && "Disabled" !in members ==> IsExpired(Object(members))
  {
  }

  // ---------------------------------------------------------------------
  // check_password_strength
  // ---------------------------------------------------------------------

  /** The names of the users that `keep` selects, in input order. */
  function NamesWhere(users: seq<Value>, keep: Value -> bool): seq<Value> {
    if users == [] then []
    else
      var n := |users| - 1;
      NamesWhere(users[..n], keep) + (if keep(users[n]) then [NameOf(users[n])] else [])
  }

  /** Selection distributes over concatenation: names come out in input order. */
  lemma {:induction false} NamesWhereAppend(a: seq<Value>, b: seq<Value>, keep: Value -> bool)
    ensures NamesWhere(a + b, keep) == NamesWhere(a, keep) + NamesWhere(b, keep)
    decreases |b|
  {
    if b == [] {
      assert a + b == a;
    } else {
      var n := |b| - 1;
      assert (a + b)[..|a| + n] == a + b[..n];
      assert (a + b)[|a| + n] == b[n];
      NamesWhereAppend(a, b[..n], keep);
    }
  }

  /** A name is listed exactly when some selected user carries it. */
  lemma {:induction false} NamesWhereMembers(users: seq<Value>, keep: Value -> bool, x: Value)
    ensures x in NamesWhere(users, keep) <==> exists i :: 0 <= i < |users| && keep(users[i]) && NameOf(users[i]) == x
    ensures |NamesWhere(users, keep)| <= |users|
    decreases |users|
  {
    if users != [] {
      var n := |users| - 1;
      var front := users[..n];
      NamesWhereMembers(front, keep, x);
      if exists i :: 0 <= i < |front| && keep(front[i]) && NameOf(front[i]) == x {
        var i :| 0 <= i < |front| && keep(front[i]) && NameOf(front[i]) == x;
        assert users[i] == front[i];
      }
      if i :| 0 <= i < |users| && keep(users[i]) && NameOf(users[i]) == x {
        if i < n {
          assert front[i] == users[i];
        }
      }
    }
  }

  function WeakNames(users: seq<Value>): seq<Value> {
    NamesWhere(users, IsWeak)
  }

  function ExpiredNames(users: seq<Value>): seq<Value> {
    NamesWhere(users, IsExpired)
  }

  /**
   * The two tests are independent: a user that needs no password and whose
   * enabled account never expires is reported in both lists.
   */
  lemma InBothLists(users: seq<Value>, i: nat)
    requires i < |users| && IsWeak(users[i]) && IsExpired(users[i])
    ensures NameOf(users[i]) in WeakNames(users)
    ensures NameOf(users[i]) in ExpiredNames(users)
  {
    NamesWhereMembers(users, IsWeak, NameOf(users[i]));
    NamesWhereMembers(users, IsExpired, NameOf(users[i]));
  }

  datatype StrengthReport = StrengthReport(weak: seq<Value>, expired: seq<Value>)

  /**
   * `check_password_strength`: the weak and expired name lists for the
   * decoded account list, or the `AttributeError` raised on the first
   * element that is not an object.
   */
  method CheckPasswordStrength(output: Decoded) returns (result: Outcome<StrengthReport>)
    ensures AllObjects(DecodedList(output)) ==>
      result == Returned(StrengthReport(WeakNames(DecodedList(output)), ExpiredNames(DecodedList(output))))
    ensures !AllObjects(DecodedList(output)) ==> result == Raised(AttributeError)
  {
    var users := DecodedList(output);
    var weak: seq<Value> := [];
    var expired: seq<Value> := [];
    var i := 0;
    while i < |users|
      invariant 0 <= i <= |users|
      invariant AllObjects(users[..i])
      invariant weak == WeakNames(users[..i])
      invariant expired == ExpiredNames(users[..i])
    {
      var user := users[i];
      if !user.Object? {
        return Raised(AttributeError);
      }
      var name := Get(user, "Name", Str("Unknown"));
      var passwordRequired := Get(user, "PasswordRequired", Bool(true));
      var passwordExpires := Get(user, "PasswordExpires", Bool(false));
      var disabled := Get(user, "Disabled", Bool(false));
      if !Truthy(passwordRequired) {
        weak := weak + [name];
      }
      if !Truthy(passwordExpires) && !Truthy(disabled) {
        expired := expired + [name];
      }
      assert users[..i + 1][..i] == users[..i];
      i := i + 1;
    }
    assert users[..i] == users;
    return Returned(StrengthReport(weak, expired));
  }

  // ---------------------------------------------------------------------
  // get_account_creation_dates
  // ---------------------------------------------------------------------

  /** `user.get("SID", "")`. */
  function SidOf(user: Value): Value {
    if user.Object? then Get(user, "SID", Str("")) else Str("")
  }

  /**
   * The loop body runs without raising: the element is an object, and a SID
   * that passes `if sid:` is a string (`sid.split("-")` raises otherwise).
   */
  predicate Processable(user: Value) {
    user.Object? && (Truthy(SidOf(user)) ==> SidOf(user).Str?)
  }

  predicate AllProcessable(users: seq<Value>) {
    forall i :: 0 <= i < |users| ==> Processable(users[i])
  }

  /** The last element of a non-empty sequence, Python's `xs[-1]`. */
  function Last<T>(xs: seq<T>): T
    requires |xs| >= 1
  {
    xs[|xs| - 1]
  }

  /**
   * `line.split(",")[-1]`: the text after the last comma of a line. It holds
   * no comma and ends the line, right after a comma when it is shorter.
   */
  function LastField(line: string): (t: string)
    ensures ',' !in t
    ensures |t| <= |line| && line[|line| - |t|..] == t
    ensures |t| < |line| ==> line[|line| - |t| - 1] == ','
  {
    var fields := SplitOn(line, ',');
    LastFieldEnds(line, fields);
    Last(fields)
  }

  lemma LastFieldEnds(line: string, fields: seq<string>)
    requires fields == SplitOn(line, ',')
    ensures var t := Last(fields);
      && ',' !in t
      && |t| <= |line| && line[|line| - |t|..] == t
      && (|t| < |line| ==> line[|line| - |t| - 1] == ',')
  {
    SplitOnParts(line, ',');
    LastPieceIsSuffix(fields, ',', line);
  }

  /**
   * The creation time in `wmic ... /format:csv` output: the stripped output
   * is split at `\n`, and when there is a second line, its last field is
   * the value.
   */
  function CreationTime(stdout: string): Option<string> {
    var lines := SplitOn(Strip(stdout), '\n');
    if |lines| > 1 then Some(LastField(lines[1])) else None
  }

  /** A creation time is found exactly when the stripped output has a second line. */
  lemma CreationTimeFound(stdout: string)
    ensures CreationTime(stdout).Some? <==> '\n' in Strip(stdout)
  {
    SplitOnParts(Strip(stdout), '\n');
  }

  /** The last piece of a join is a suffix of it, preceded by the separator when there are several. */
  lemma {:induction false} LastPieceIsSuffix(parts: seq<string>, sep: char, s: string)
    requires |parts| >= 1 && Join(parts, [sep]) == s
    ensures var t := Last(parts);
      && |t| <= |s| && s[|s| - |t|..] == t
      && (|parts| > 1 ==> |t| < |s| && s[|s| - |t| - 1] == sep)
    decreases |parts|
  {
    if |parts| > 1 {
      var rest := Join(parts[1..], [sep]);
      LastPieceIsSuffix(parts[1..], sep, rest);
      assert s == parts[0] + [sep] + rest;
      assert Last(parts[1..]) == Last(parts);
      if |parts| == 2 {
        assert rest == parts[1];
      }
    }
  }

  /**
   * For a CSV header line followed by one row, however padded, the creation
   * time is the row's last cell.
   */
  lemma CreationTimeOfCsv(pre: string, header: string, cells: seq<string>, post: string)
    requires AllSpace(pre) && AllSpace(post)
    requires header != [] && !IsSpace(header[0]) && '\n' !in header
    requires |cells| >= 1
    requires forall i :: 0 <= i < |cells| ==> '\n' !in cells[i] && ',' !in cells[i]
    requires Last(cells) != [] && !IsSpace(Last(cells)[|Last(cells)| - 1])
    ensures CreationTime(pre + (header + "\n" + Join(cells, ",")) + post) == Some(Last(cells))
  {
    var row := Join(cells, ",");
    var core := header + "\n" + row;
    JoinEnds(cells, ",");
    SplitOnJoinKeeps(cells, ',', '\n');
    assert core[|core| - 1] == row[|row| - 1];
    StripPadded(pre, core, post);
    assert Join([header, row], "\n") == core;
    SplitOnJoin([header, row], '\n', core);
    SplitOnJoin(cells, ',', row);
    assert LastField(row) == Last(cells);
  }

  /** A character absent from every part and from the separator is absent from the join. */
  lemma {:induction false} SplitOnJoinKeeps(parts: seq<string>, sep: char, c: char)
    requires c != sep
    requires forall i :: 0 <= i < |parts| ==> c !in parts[i]
    ensures c !in Join(parts, [sep])
    decreases |parts|
  {
    if |parts| > 1 {
      SplitOnJoinKeeps(parts[1..], sep, c);
    }
  }

  lemma AllProcessableSnoc(users: seq<Value>, user: Value)
    requires AllProcessable(users) && Processable(user)
    ensures AllProcessable(users + [user])
    ensures (users + [user])[..|users|] == users
  {
  }

  datatype CreationEntry = CreationEntry(name: Value, created: string)

  /**
   * What one account adds to the creation history, given the creation time
   * each SID's query yields: nothing without a SID, otherwise its name and
   * creation time when the query yields one.
   */
  function AccountCreation(user: Value, query: string -> Option<string>): seq<CreationEntry>
    requires Processable(user)
  {
    var sid := SidOf(user);
    if !Truthy(sid) then []
    else
      match query(sid.s)
      case None => []
      case Some(t) => [CreationEntry(NameOf(user), t)]
  }

  function CreationHistory(users: seq<Value>, query: string -> Option<string>): seq<CreationEntry>
    requires AllProcessable(users)
  {
    if users == [] then []
    else
      var n := |users| - 1;
      CreationHistory(users[..n], query) + AccountCreation(users[n], query)
  }

  /**
   * One account's contribution holds `e` exactly when the account has a SID
   * whose query yields `e`'s creation time, and `e` carries its name.
   */
  lemma AccountCreationMember(user: Value, query: string -> Option<string>, e: CreationEntry)
    requires Processable(user)
    ensures e in AccountCreation(user, query) <==>
      && Truthy(SidOf(user))
      && e.name == NameOf(user)
      && query(SidOf(user).s) == Some(e.created)
  {
  }

  /** Account `i` contributes `e` to the history. */
  ghost predicate RecordedAt(users: seq<Value>, query: string -> Option<string>, e: CreationEntry, i: int) {
    0 <= i < |users| && Processable(users[i]) && e in AccountCreation(users[i], query)
  }

  /**
   * The history holds exactly the entries the accounts contribute (see
   * AccountCreationMember for what one account contributes), and at most
   * one per account.
   */
  lemma {:induction false} CreationHistoryMembers(users: seq<Value>, query: string -> Option<string>, e: CreationEntry)
    requires AllProcessable(users)
    ensures e in CreationHistory(users, query) <==> exists i :: RecordedAt(users, query, e, i)
    ensures |CreationHistory(users, query)| <= |users|
    decreases |users|
  {
    if users != [] {
      var n := |users| - 1;
      var front := users[..n];
      assert forall i :: 0 <= i < n ==> front[i] == users[i];
      CreationHistoryMembers(front, query, e);
      var last := AccountCreation(users[n], query);
      assert CreationHistory(users, query) == CreationHistory(front, query) + last;
      if e in CreationHistory(users, query) {
        if e in CreationHistory(front, query) {
          var i :| RecordedAt(front, query, e, i);
          assert RecordedAt(users, query, e, i);
        } else {
          assert e in last;
          assert RecordedAt(users, query, e, n);
        }
      }
      if exists i :: RecordedAt(users, query, e, i) {
        var i :| RecordedAt(users, query, e, i);
        if i < n {
          assert RecordedAt(front, query, e, i);
        } else {
          assert e in last;
        }
      }
    }
  }

  /** What one account with a SID contributes, given what its query yields. */
  lemma AccountCreationOf(user: Value, query: string -> Option<string>, found: Option<string>)
    requires Processable(user) && Truthy(SidOf(user))
    requires query(SidOf(user).s) == found
    ensures AccountCreation(user, query) == if found.Some? then [CreationEntry(NameOf(user), found.value)] else []
  {
  }

  /** What the per-SID `wmic` query yields once its creation time is extracted. */
  function Created(wmic: string -> string): string -> Option<string> {
    sid => CreationTime(wmic(sid))
  }

  /**
   * `get_account_creation_dates`: the creation history of the decoded
   * accounts, or the `AttributeError` raised on the first element that is
   * not an object or whose SID is truthy but not a string.
   */
  method GetAccountCreationDates(output: Decoded, wmic: string -> string)
    returns (result: Outcome<seq<CreationEntry>>)
    ensures AllProcessable(DecodedList(output)) ==>
      result == Returned(CreationHistory(DecodedList(output), Created(wmic)))
    ensures !AllProcessable(DecodedList(output)) ==> result == Raised(AttributeError)
  {
    var users := DecodedList(output);
    var history: seq<CreationEntry> := [];
    var i := 0;
    while i < |users|
      invariant 0 <= i <= |users|
      invariant AllProcessable(users[..i])
      invariant history == CreationHistory(users[..i], Created(wmic))
    {
      var step := RecordCreation(users[i], wmic);
      if step.Raised? {
        assert !AllProcessable(users);
        return step;
      }
      AllProcessableSnoc(users[..i], users[i]);
      assert users[..i + 1] == users[..i] + [users[i]];
      history := history + step.value;
      i := i + 1;
    }
    assert users[..i] == users;
    return Returned(history);
  }

  /**
   * One pass of the loop in `get_account_creation_dates`: what the account
   * adds to the history, or the `AttributeError` its `get` or `split` raises.
   */
  method RecordCreation(user: Value, wmic: string -> string) returns (step: Outcome<seq<CreationEntry>>)
    ensures Processable(user) ==> step == Returned(AccountCreation(user, Created(wmic)))
    ensures !Processable(user) ==> step == Raised(AttributeError)
  {
    if !user.Object? {
      return Raised(AttributeError);
    }
    var name := Get(user, "Name", Str("Unknown"));
    var sid := Get(user, "SID", Str(""));
    if !Truthy(sid) {
      return Returned([]);
    }
    if !sid.Str? {
      return Raised(AttributeError);
    }
    // The query and its extraction (`lines[1].split(",")[-1]`), stated once as CreationTime.
    var found := CreationTime(wmic(sid.s));
    AccountCreationOf(user, Created(wmic), found);
    if found.Some? {
      return Returned([CreationEntry(name, found.value)]);
    }
    return Returned([]);
  }

  // ---------------------------------------------------------------------
  // run_audit: summary table rows
  // ---------------------------------------------------------------------

  /**
   * The user table: one row per user, in order, holding the name (default
   * "Unknown"), the Enabled value (default None) and the last logon
   * (default "Never"); a non-object element raises.
   */
  function UserTable(users: seq<Value>): (rows: Outcome<seq<seq<Value>>>)
    ensures rows.Returned? <==> AllObjects(users)
    ensures rows.Returned? ==> |rows.value| == |users|
    ensures rows.Returned? ==> forall i :: 0 <= i < |users| ==>
      var m, row := users[i].members, rows.value[i];
      && |row| == 3
      && row[0] == (if "Name" in m then m["Name"] else Str("Unknown"))
      && row[1] == (if "Enabled" in m then m["Enabled"] else Null)
      && row[2] == (if "LastLogon" in m then m["LastLogon"] else Str("Never"))
    ensures !rows.Returned? ==> rows == Raised(AttributeError)
  {
    if AllObjects(users) then
      Returned(seq(|users|, i requires 0 <= i < |users| =>
        [Get(users[i], "Name", Str("Unknown")), Get(users[i], "Enabled", Null), Get(users[i], "LastLogon", Str("Never"))]))
    else
      Raised(AttributeError)
  }

  /** The administrator table: one single-cell row per entry, the name defaulting to "Unknown". */
  function AdminTable(admins: seq<Value>): (rows: Outcome<seq<seq<Value>>>)
    ensures rows.Returned? <==> AllObjects(admins)
    ensures rows.Returned? ==> |rows.value| == |admins|
    ensures rows.Returned? ==> forall i :: 0 <= i < |admins| ==>
      var m := admins[i].members;
      rows.value[i] == [if "Name" in m then m["Name"] else Str("Unknown")]
    ensures !rows.Returned? ==> rows == Raised(AttributeError)
  {
    if AllObjects(admins) then
      Returned(seq(|admins|, i requires 0 <= i < |admins| => [Get(admins[i], "Name", Str("Unknown"))]))
    else
      Raised(AttributeError)
  }

  /** A single decoded account is tabulated exactly as a one-element list holding it. */
  lemma SingleAccountTable(account: Value)
    requires !account.Array?
    ensures UserTable(DecodedList(Parsed(account))) == UserTable(DecodedList(Parsed(Array([account]))))
    ensures AdminTable(DecodedList(Parsed(account))) == AdminTable(DecodedList(Parsed(Array([account]))))
  {
  }
}
