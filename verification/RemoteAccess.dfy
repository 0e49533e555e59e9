/**
 * The remote-access check (`modules/remote_access.py`): the lines `netstat -an`
 * prints are sorted into listening ports and established connections by
 * substring tests, listening lines mentioning a remote-access port are logged
 * at info level and the others at debug level, established connections are
 * logged at info level, and a warning is logged when neither kind was seen.
 */
module RemoteAccess {
  import opened Text
  import opened Logging

  /**
   * What `subprocess.run(["netstat", "-an"], capture_output=True, text=True)`
   * does: it returns the decoded output, or raises, because `netstat` cannot
   * be run or its output cannot be decoded as text; `error` is the exception's
   * text.
   */
  datatype NetstatRun = Ran(stdout: string) | RunFailed(error: string)

  /** SSH, RDP, HTTP and HTTPS, matched as substrings of a line, not as port numbers. */
  const RemotePorts: seq<string> := ["22", "3389", "80", "443"]

  const CheckingSettings := "Checking remote access settings..."
  const CheckingPorts := "Checking for open remote access ports (SSH, RDP, HTTP, HTTPS)..."
  const ListeningHeader := "Listening Ports:"
  const EstablishedHeader := "Established Connections:"
  const NoConnections := "No remote access connections found."
  const FailurePrefix := "Failed to check remote access: "

  /** `any(remote_port in line for remote_port in remote_ports)`. */
  predicate MentionsRemotePort(line: string) {
    exists p :: p in RemotePorts && Contains(line, p)
  }

  // ---------------------------------------------------------------------
  // Partition
  // ---------------------------------------------------------------------

  /** The lines containing `word`, in input order. */
  function Matching(lines: seq<string>, word: string): seq<string> {
    if lines == [] then []
    else
      var n := |lines| - 1;
      Matching(lines[..n], word) + (if Contains(lines[n], word) then [lines[n]] else [])
  }

  /** Filtering distributes over concatenation: lines keep their order. */
  lemma {:induction false} MatchingAppend(a: seq<string>, b: seq<string>, word: string)
    ensures Matching(a + b, word) == Matching(a, word) + Matching(b, word)
    decreases |b|
  {
    if b == [] {
      assert a + b == a;
    } else {
      var n := |b| - 1;
      assert (a + b)[..|a| + n] == a + b[..n];
      assert (a + b)[|a| + n] == b[n];
      MatchingAppend(a, b[..n], word);
    }
  }

  /** A line is kept exactly when it is one of the lines and contains `word`. */
  lemma {:induction false} MatchingMembers(lines: seq<string>, word: string, x: string)
    ensures x in Matching(lines, word) <==> x in lines && Contains(x, word)
    ensures |Matching(lines, word)| <= |lines|
    decreases |lines|
  {
    if lines != [] {
      var n := |lines| - 1;
      MatchingMembers(lines[..n], word, x);
      assert lines == lines[..n] + [lines[n]];
    }
  }

  /**
   * The loop that sorts `netstat` lines: a line containing `LISTEN` is a
   * listening port, a line containing `ESTABLISHED` an established
   * connection; the two tests are independent.
   */
  method PartitionConnections(lines: seq<string>) returns (listening: seq<string>, established: seq<string>)
    ensures listening == Matching(lines, "LISTEN")
    ensures established == Matching(lines, "ESTABLISHED")
  {
    listening, established := [], [];
    var i := 0;
    while i < |lines|
      invariant 0 <= i <= |lines|
      invariant listening == Matching(lines[..i], "LISTEN")
      invariant established == Matching(lines[..i], "ESTABLISHED")
    {
      var line := lines[i];
      if Contains(line, "LISTEN") {
        listening := listening + [line];
      }
      if Contains(line, "ESTABLISHED") {
        established := established + [line];
      }
      assert lines[..i + 1][..i] == lines[..i];
      i := i + 1;
    }
    assert lines[..i] == lines;
  }

  /** A line with both words is in both lists; a line with neither is in none. */
  lemma PartitionIndependent(lines: seq<string>, x: string)
    requires x in lines
    ensures Contains(x, "LISTEN") && Contains(x, "ESTABLISHED") ==>
      x in Matching(lines, "LISTEN") && x in Matching(lines, "ESTABLISHED")
    ensures !Contains(x, "LISTEN") && !Contains(x, "ESTABLISHED") ==>
      x !in Matching(lines, "LISTEN") && x !in Matching(lines, "ESTABLISHED")
  {
    MatchingMembers(lines, "LISTEN", x);
    MatchingMembers(lines, "ESTABLISHED", x);
  }

  // ---------------------------------------------------------------------
  // Logging
  // ---------------------------------------------------------------------

  /** One event per listening line: info when it mentions a remote-access port, debug otherwise. */
  function PortEvents(listening: seq<string>): seq<Event> {
    if listening == [] then []
    else
      var n := |listening| - 1;
      var line := listening[n];
      PortEvents(listening[..n]) + [Event(if MentionsRemotePort(line) then Info else Debug, line)]
  }

  /** One info event per established connection. */
  function ConnectionEvents(established: seq<string>): seq<Event> {
    if established == [] then []
    else
      var n := |established| - 1;
      ConnectionEvents(established[..n]) + [Event(Info, established[n])]
  }

  /**
   * The events logged after the partition: each non-empty list under its
   * header, then the warning when both are empty.
   */
  function Report(listening: seq<string>, established: seq<string>): seq<Event> {
    (if listening != [] then [Event(Info, ListeningHeader)] + PortEvents(listening) else [])
    + (if established != [] then [Event(Info, EstablishedHeader)] + ConnectionEvents(established) else [])
    + (if listening == [] && established == [] then [Event(Warning, NoConnections)] else [])
  }

  /** The k-th listening line is logged k-th, at info level exactly when it mentions a remote-access port. */
  lemma {:induction false} PortEventsAt(listening: seq<string>)
    ensures |PortEvents(listening)| == |listening|
    ensures forall k :: 0 <= k < |listening| ==>
      PortEvents(listening)[k] == Event(if MentionsRemotePort(listening[k]) then Info else Debug, listening[k])
    decreases |listening|
  {
    if listening != [] {
      var n := |listening| - 1;
      PortEventsAt(listening[..n]);
    }
  }

  /** The k-th established connection is logged k-th, at info level. */
  lemma {:induction false} ConnectionEventsAt(established: seq<string>)
    ensures |ConnectionEvents(established)| == |established|
    ensures forall k :: 0 <= k < |established| ==> ConnectionEvents(established)[k] == Event(Info, established[k])
    decreases |established|
  {
    if established != [] {
      var n := |established| - 1;
      ConnectionEventsAt(established[..n]);
    }
  }

  /** Nothing but the "no connections" event is logged at warning level. */
  lemma NoWarningsIn(listening: seq<string>, established: seq<string>)
    ensures forall e :: e in PortEvents(listening) ==> e.level != Warning
    ensures forall e :: e in ConnectionEvents(established) ==> e.level != Warning
  {
    PortEventsAt(listening);
    ConnectionEventsAt(established);
  }

  /** The warning is logged exactly when neither list has a line. */
  lemma WarningIffNothingFound(listening: seq<string>, established: seq<string>)
    ensures Event(Warning, NoConnections) in Report(listening, established) <==> listening == [] && established == []
  {
    NoWarningsIn(listening, established);
    if listening != [] || established != [] {
      var a := if listening != [] then [Event(Info, ListeningHeader)] + PortEvents(listening) else [];
      var b := if established != [] then [Event(Info, EstablishedHeader)] + ConnectionEvents(established) else [];
      assert Report(listening, established) == a + b;
      assert Event(Warning, NoConnections) !in a;
      assert Event(Warning, NoConnections) !in b;
    }
  }

  /**
   * A section's header is logged exactly when its list is non-empty, and
   * it comes right before the section's events.
   */
  lemma ReportSections(listening: seq<string>, established: seq<string>)
    ensures listening != [] ==> Report(listening, established)[0] == Event(Info, ListeningHeader)
    ensures listening == [] && established != [] ==> Report(listening, established)[0] == Event(Info, EstablishedHeader)
    ensures established != [] ==>
      var at := if listening != [] then 1 + |listening| else 0;
      at < |Report(listening, established)| && Report(listening, established)[at] == Event(Info, EstablishedHeader)
    ensures |Report(listening, established)| ==
      (if listening != [] then 1 + |listening| else 0) + (if established != [] then 1 + |established| else 0)
      + (if listening == [] && established == [] then 1 else 0)
  {
    PortEventsAt(listening);
    ConnectionEventsAt(established);
  }

  /**
   * The logging after the partition: the two sections, each only when its
   * list is non-empty, and the warning when both are empty.
   */
  method ReportConnections(listening: seq<string>, established: seq<string>) returns (log: seq<Event>)
    ensures log == Report(listening, established)
  {
    log := [];
    if listening != [] {
      log := log + [Event(Info, ListeningHeader)];
      var i := 0;
      while i < |listening|
        invariant 0 <= i <= |listening|
        invariant log == [Event(Info, ListeningHeader)] + PortEvents(listening[..i])
      {
        var port := listening[i];
        if MentionsRemotePort(port) {
          log := log + [Event(Info, port)];
        } else {
          log := log + [Event(Debug, port)];
        }
        assert listening[..i + 1][..i] == listening[..i];
        i := i + 1;
      }
      assert listening[..i] == listening;
    }
    ghost var before := log;
    if established != [] {
      log := log + [Event(Info, EstablishedHeader)];
      var i := 0;
      while i < |established|
        invariant 0 <= i <= |established|
        invariant log == before + [Event(Info, EstablishedHeader)] + ConnectionEvents(established[..i])
      {
        log := log + [Event(Info, established[i])];
        assert established[..i + 1][..i] == established[..i];
        i := i + 1;
      }
      assert established[..i] == established;
    }
    if listening == [] && established == [] {
      log := log + [Event(Warning, NoConnections)];
    }
  }

  /**
   * `audit_remote_access`: the opening info event, then either the error
   * event when running `netstat` raises, or the port-check info event
   * followed by the report on the partitioned lines.
   */
  method AuditRemoteAccess(run: NetstatRun) returns (log: seq<Event>)
    ensures run.RunFailed? ==>
      log == [Event(Info, CheckingSettings), Event(Error, FailurePrefix + run.error)]
    ensures run.Ran? ==>
      var lines := SplitLines(run.stdout);
      log == [Event(Info, CheckingSettings), Event(Info, CheckingPorts)]
        + Report(Matching(lines, "LISTEN"), Matching(lines, "ESTABLISHED"))
  {
    log := [Event(Info, CheckingSettings)];
    if run.RunFailed? {
      log := log + [Event(Error, FailurePrefix + run.error)];
      return;
    }
    log := log + [Event(Info, CheckingPorts)];
    var lines := SplitLines(run.stdout);
    var listening, established := PartitionConnections(lines);
    var report := ReportConnections(listening, established);
    log := log + report;
  }

  /**
   * Port matching is by substring: a listening line for port 8080, or for
   * an ephemeral port such as 50221, counts as a remote-access port.
   */
  lemma SubstringPortMatch()
    ensures MentionsRemotePort("*:8080 LISTEN")
    ensures MentionsRemotePort("*:50221 LISTEN")
  {
    var a := "*:8080 LISTEN";
    assert a[2..4] == "80";
    assert OccursAt(a, "80", 2);
    ContainsIff(a, "80");
    assert "80" in RemotePorts && Contains(a, "80");
    var b := "*:50221 LISTEN";
    assert b[4..6] == "22";
    assert OccursAt(b, "22", 4);
    ContainsIff(b, "22");
    assert "22" in RemotePorts && Contains(b, "22");
  }
}
