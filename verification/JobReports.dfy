/** What the runner and the listeners of a sequential job write to the WebSocket of the user
    interface (createAndRunJobWS in server/api.go, saveCmdResult in server/client_listener.go). */
module JobReports {
  import opened Wrappers
  import opened Jobs
  import W = WebSockets

  /** The text of a write, and whether the transport carries it. */
  type Line = (string, bool)

  /** What a step writes, while the runner is at work: an error when there is no identifier or the
      request failed, and a result before it is saved. */
  function ReportOf(cfg: Config, s: State, e: Event, line: Line): seq<W.Report> {
    if Over(s) || Next(cfg, s, e) == s then []
    else
      match e
      case FailID => [W.NoIdentifier(s.cursor, line.0, line.1)]
      case ReplyError => [W.SendFailure(s.cursor, line.0, line.1)]
      case Save(j) => [W.CommandResult(j, line.0, line.1)]
      case Drop(j, arrived) => if arrived then [W.CommandResult(j, line.0, line.1)] else []
      case _ => []
  }

  /** The writes of a run; `wire` has the line of each step. */
  function Reports(cfg: Config, n: nat, events: seq<Event>, wire: nat -> Line): seq<W.Report> {
    if events == [] then []
    else
      var front, e := events[..|events| - 1], events[|events| - 1];
      Reports(cfg, n, front, wire) + ReportOf(cfg, Run(cfg, n, front), e, wire(|front|))
  }

  // ---- Who has reported ----

  /** Client `j` must have reported. */
  predicate Must(s: State, j: nat) {
    j < s.cursor ||
    (j == s.cursor < |s.children| &&
     (s.runner == Creating(false) || s.children[j].phase.Saved? || s.children[j].phase.Pending?))
  }

  predicate May(s: State, j: nat) {
    Must(s, j) || (j == s.cursor < |s.children| && s.children[j].phase.Dropped?)
  }

  /** A step makes at most one report, of a client that has not reported. */
  lemma OneReport(cfg: Config, s: State, e: Event, line: Line, j: nat)
    requires Valid(cfg, s) && !cfg.lossy
    ensures var n, r := Next(cfg, s, e), ReportOf(cfg, s, e, line);
            && |r| <= 1
            && (r != [] ==> r[0].client < |s.children| && !May(s, r[0].client) && May(n, r[0].client))
            && (May(s, j) ==> May(n, j))
            && (Must(n, j) ==> Must(s, j) || (r != [] && r[0].client == j))
  {
    if OfResult(e) && e.child < |s.children| {
      ResultReport(cfg, s, e, line, e.child, j);
    } else if !OfResult(e) && !e.End? && !e.Unregister? && s.cursor < |s.children| {
      RunnerReport(cfg, s, e, line, j);
    }
  }

  lemma ResultReport(cfg: Config, s: State, e: Event, line: Line, c: nat, j: nat)
    requires Valid(cfg, s) && !cfg.lossy && OfResult(e) && e.child == c < |s.children|
    ensures var n, r := ResultStep(cfg, s, e, c), ReportOf(cfg, s, e, line);
            && |r| <= 1
            && (r != [] ==> r[0].client < |s.children| && !May(s, r[0].client) && May(n, r[0].client))
            && (May(s, j) ==> May(n, j))
            && (Must(n, j) ==> Must(s, j) || (r != [] && r[0].client == j))
  {
    assert Active(s.children[c].phase) ==> c == s.cursor;
  }

  lemma RunnerReport(cfg: Config, s: State, e: Event, line: Line, j: nat)
    requires Valid(cfg, s) && !cfg.lossy && !OfResult(e) && !e.End? && !e.Unregister? && s.cursor < |s.children|
    ensures var n, r := RunnerStep(cfg, s, e), ReportOf(cfg, s, e, line);
            && |r| <= 1
            && (r != [] ==> r[0].client < |s.children| && !May(s, r[0].client) && May(n, r[0].client))
            && (May(s, j) ==> May(n, j))
            && (Must(n, j) ==> Must(s, j) || (r != [] && r[0].client == j))
  {}

  lemma ReportedAppend(reports: seq<W.Report>, r: seq<W.Report>, j: nat)
    requires |r| <= 1
    ensures W.HasReported(reports + r, j) <==> W.HasReported(reports, j) || (r != [] && r[0].client == j)
  {
    var all := reports + r;
    if W.HasReported(reports, j) {
      var i :| 0 <= i < |reports| && reports[i].client == j;
      assert all[i] == reports[i];
    }
    if r != [] {
      assert all[|reports|] == r[0];
    }
  }

  /** Nobody reports twice, and who is dealt with has reported. */
  lemma {:induction false} ReportsTell(cfg: Config, n: nat, events: seq<Event>, wire: nat -> Line)
    requires !cfg.lossy
    ensures var s, reports := Run(cfg, n, events), Reports(cfg, n, events, wire);
            && W.OncePerClient(n, reports)
            && (forall j: nat | W.HasReported(reports, j) :: May(s, j))
            && (forall j: nat | Must(s, j) :: W.HasReported(reports, j))
  {
    if events != [] {
      var front, e := events[..|events| - 1], events[|events| - 1];
      ReportsTell(cfg, n, front, wire);
      RunValid(cfg, n, front);
      var s, reports := Run(cfg, n, front), Reports(cfg, n, front, wire);
      var r := ReportOf(cfg, s, e, wire(|front|));
      forall j: nat
        ensures W.HasReported(reports + r, j) ==> May(Next(cfg, s, e), j)
        ensures Must(Next(cfg, s, e), j) ==> W.HasReported(reports + r, j)
      {
        OneReport(cfg, s, e, wire(|front|), j);
        ReportedAppend(reports, r, j);
      }
      OneReport(cfg, s, e, wire(|front|), 0);
      OnceAppend(n, reports, r);
    }
  }

  lemma OnceAppend(n: nat, reports: seq<W.Report>, r: seq<W.Report>)
    requires W.OncePerClient(n, reports) && |r| <= 1
    requires r != [] ==> r[0].client < n && !W.HasReported(reports, r[0].client)
    ensures W.OncePerClient(n, reports + r)
  {
    assert forall i | 0 <= i < |reports| :: (reports + r)[i] == reports[i];
  }

  lemma OverReports(s: State, reports: seq<W.Report>)
    requires Over(s) && s.cursor <= |s.children|
    requires s.cursor < |s.children| ==> s.children[s.cursor] == FRESH
    requires forall j: nat | W.HasReported(reports, j) :: May(s, j)
    requires forall j: nat | Must(s, j) :: W.HasReported(reports, j)
    ensures (forall c | 0 <= c < |s.children| :: W.HasReported(reports, c)) <==> s.cursor == |s.children|
  {
    if s.cursor == |s.children| {
      forall c: nat | c < |s.children| ensures W.HasReported(reports, c) {
        assert Must(s, c);
      }
    } else {
      assert !May(s, s.cursor);
      assert !W.HasReported(reports, s.cursor);
    }
  }

  /** With no reply lost, at any moment of a run the socket has closed itself exactly if all
      clients have reported, and it has delivered every report the transport carries. Once the
      run is over, it has closed itself exactly if every client was dealt with. */
  lemma SocketFollowsRun(cfg: Config, n: nat, events: seq<Event>, wire: nat -> Line)
    requires !cfg.lossy && n > 0
    ensures var s, reports := Run(cfg, n, events), Reports(cfg, n, events, wire);
            var socket := W.After(n, reports);
            && W.Follows(n, reports)
            && socket.delivered == W.Carried(reports)
            && (Over(s) ==> (socket.closed <==> s.cursor == n))
  {
    var s, reports := Run(cfg, n, events), Reports(cfg, n, events, wire);
    ReportsTell(cfg, n, events, wire);
    RunValid(cfg, n, events);
    W.ClosesAtLastReport(n, reports);
    if Over(s) {
      OverReports(s, reports);
    }
  }

  // ---- Lost replies ----

  lemma ReportsFrom(cfg: Config, n: nat, front: seq<Event>, e: Event, wire: nat -> Line)
    ensures Reports(cfg, n, front + [e], wire) ==
            Reports(cfg, n, front, wire) + ReportOf(cfg, Run(cfg, n, front), e, wire(|front|))
  {
    assert (front + [e])[..|front|] == front;
  }

  lemma WritesBelow(cfg: Config, s: State, e: Event, line: Line)
    ensures |ReportOf(cfg, s, e, line)| <= 1
    ensures ReportOf(cfg, s, e, line) != [] ==> ReportOf(cfg, s, e, line)[0].client < |s.children|
  {}

  lemma {:induction false} ReportsBelow(cfg: Config, n: nat, events: seq<Event>, wire: nat -> Line)
    ensures W.Only(Reports(cfg, n, events, wire), |Reports(cfg, n, events, wire)|, n)
  {
    if events != [] {
      var front, e := events[..|events| - 1], events[|events| - 1];
      ReportsBelow(cfg, n, front, wire);
      ChildrenStay(cfg, n, front);
      WritesBelow(cfg, Run(cfg, n, front), e, wire(|front|));
    }
  }

  /** What a step writes when the runner is at client `k`. */
  lemma WritesAt(cfg: Config, s: State, e: Event, n: nat, k: nat, r: Runner, p: Phase, r2: Runner, p2: Phase, line: Line)
    requires At(s, n, k, r, p) && Leads(cfg, e, k, r, p, r2, p2) && r != Closed && r != Done
    ensures W.Only(ReportOf(cfg, s, e, line), if e.Save? || e.ReplyError? then 1 else 0, k + 1)
  {
    if e.Save? {
      assert Next(cfg, s, e).children[k] != s.children[k];
    }
  }

  /** The run so far: `count` reports of clients below `bound`, and the runner at client `k`. */
  ghost predicate SoFar(cfg: Config, n: nat, events: seq<Event>, wire: nat -> Line, k: nat, r: Runner, p: Phase,
                        count: nat, bound: nat)
  {
    At(Run(cfg, n, events), n, k, r, p) && W.Only(Reports(cfg, n, events, wire), count, bound)
  }

  lemma Further(cfg: Config, n: nat, front: seq<Event>, e: Event, wire: nat -> Line, k: nat, r: Runner, p: Phase,
                r2: Runner, p2: Phase, count: nat, bound: nat)
    requires SoFar(cfg, n, front, wire, k, r, p, count, bound) && k < bound
    requires Leads(cfg, e, k, r, p, r2, p2) && r != Closed && r != Done
    ensures SoFar(cfg, n, front + [e], wire, k, r2, p2, count + (if e.Save? || e.ReplyError? then 1 else 0), bound)
  {
    RunAt(cfg, n, front, e, k, r, p, r2, p2);
    WritesAt(cfg, Run(cfg, n, front), e, n, k, r, p, r2, p2, wire(|front|));
    ReportsFrom(cfg, n, front, e, wire);
  }

  lemma Asked(cfg: Config, n: nat, front: seq<Event>, wire: nat -> Line, k: nat, count: nat) returns (events: seq<Event>)
    requires SoFar(cfg, n, front, wire, k, Idle, NotStarted, count, k + 1)
    ensures SoFar(cfg, n, events, wire, k, Sending, Sent(Successful), count, k + 1)
  {
    Further(cfg, n, front, Send, wire, k, Idle, NotStarted, Sending, NotStarted, count, k + 1);
    events := front + [Send];
    Further(cfg, n, events, Start, wire, k, Sending, NotStarted, Sending, Running, count, k + 1);
    events := events + [Start];
    Further(cfg, n, events, Finish(k, Successful), wire, k, Sending, Running, Sending, Sent(Successful), count, k + 1);
    events := events + [Finish(k, Successful)];
  }

  lemma Offered(cfg: Config, n: nat, front: seq<Event>, wire: nat -> Line, k: nat, count: nat) returns (events: seq<Event>)
    requires SoFar(cfg, n, front, wire, k, Sending, Sent(Successful), count, k + 1)
    ensures SoFar(cfg, n, events, wire, k, Waiting, Pending(Successful), count + 1, k + 1)
  {
    Further(cfg, n, front, Save(k), wire, k, Sending, Sent(Successful), Sending, Saved(Successful), count, k + 1);
    events := front + [Save(k)];
    Further(cfg, n, events, Forward(k), wire, k, Sending, Saved(Successful), Sending, Pending(Successful), count + 1, k + 1);
    events := events + [Forward(k)];
    Further(cfg, n, events, ReplyOK, wire, k, Sending, Pending(Successful), Creating(true), Pending(Successful), count + 1, k + 1);
    events := events + [ReplyOK];
    Further(cfg, n, events, Create(true), wire, k, Creating(true), Pending(Successful), Waiting, Pending(Successful), count + 1, k + 1);
    events := events + [Create(true)];
  }

  lemma ReceiveAt(cfg: Config, s: State, n: nat, k: nat, line: Line)
    requires At(s, n, k, Waiting, Pending(Successful)) && k + 1 < n
    ensures At(Next(cfg, s, Receive(k)), n, k + 1, Idle, NotStarted)
    ensures ReportOf(cfg, s, Receive(k), line) == []
  {}

  lemma Received(cfg: Config, n: nat, front: seq<Event>, wire: nat -> Line, k: nat)
    requires SoFar(cfg, n, front, wire, k, Waiting, Pending(Successful), k + 1, k + 1) && k + 1 < n
    ensures SoFar(cfg, n, front + [Receive(k)], wire, k + 1, Idle, NotStarted, k + 1, k + 1)
  {
    ReceiveAt(cfg, Run(cfg, n, front), n, k, wire(|front|));
    RunFrom(cfg, n, front, Receive(k));
    ReportsFrom(cfg, n, front, Receive(k), wire);
  }

  /** The first `k` clients are served as they should be, each with one report. */
  lemma {:induction false} Served(cfg: Config, n: nat, k: nat, wire: nat -> Line) returns (events: seq<Event>)
    requires k < n
    ensures SoFar(cfg, n, events, wire, k, Idle, NotStarted, k, k)
  {
    if k == 0 {
      events := [];
      InitialAt(cfg, n);
    } else {
      events := Served(cfg, n, k - 1, wire);
      events := Asked(cfg, n, events, wire, k - 1, k - 1);
      events := Offered(cfg, n, events, wire, k - 1, k - 1);
      Received(cfg, n, events, wire, k - 1);
      events := events + [Receive(k - 1)];
    }
  }

  /** After that the reply to client `k` is lost, and both the failure and the result are
      reported; nobody after it has been asked. */
  lemma ReportsTwice(cfg: Config, n: nat, k: nat, wire: nat -> Line) returns (events: seq<Event>)
    requires cfg.lossy && k < n
    ensures SoFar(cfg, n, events, wire, k, Creating(false), Saved(Successful), k + 2, k + 1)
  {
    events := Served(cfg, n, k, wire);
    events := Asked(cfg, n, events, wire, k, k);
    Further(cfg, n, events, ReplyError, wire, k, Sending, Sent(Successful), Creating(false), Sent(Successful), k, k + 1);
    events := events + [ReplyError];
    Further(cfg, n, events, Save(k), wire, k, Creating(false), Sent(Successful), Creating(false), Saved(Successful), k + 1, k + 1);
    events := events + [Save(k)];
  }

  lemma TwiceFirst(cfg: Config, n: nat, wire: nat -> Line) returns (events: seq<Event>)
    requires cfg.lossy && n > 0
    ensures !W.OncePerClient(n, Reports(cfg, n, events, wire))
  {
    events := ReportsTwice(cfg, n, 0, wire);
    W.TwiceByFirst(n, Reports(cfg, n, events, wire));
  }

  /** Every run has each client report at most once exactly when no reply is ever lost, or there
      are no clients. */
  lemma OnceExactlyWithoutLoss(cfg: Config, n: nat, wire: nat -> Line)
    ensures (forall events :: W.OncePerClient(n, Reports(cfg, n, events, wire))) <==> !cfg.lossy || n == 0
  {
    if !cfg.lossy || n == 0 {
      forall events ensures W.OncePerClient(n, Reports(cfg, n, events, wire)) {
        if n == 0 {
          ReportsBelow(cfg, n, events, wire);
        } else {
          ReportsTell(cfg, n, events, wire);
        }
      }
    } else {
      var events := TwiceFirst(cfg, n, wire);
    }
  }

  /** With a lost reply the socket of a job on any two or more clients may close before the last
      one is even asked. */
  lemma LossClosesEarly(cfg: Config, n: nat, wire: nat -> Line) returns (events: seq<Event>)
    requires cfg.lossy && n > 1
    ensures var reports := Reports(cfg, n, events, wire);
            W.After(n, reports).closed && !W.HasReported(reports, n - 1)
    ensures var s := Run(cfg, n, events);
            |s.children| == n && s.children[n - 1] == FRESH
  {
    events := ReportsTwice(cfg, n, n - 2, wire);
    W.ClosedWithout(n, Reports(cfg, n, events, wire));
  }

  /** In every run, and at any moment of it, the socket of an n-client job has closed itself exactly
      if all have reported: this holds exactly when no reply is ever lost, or there is one client. */
  lemma SocketExactlyWhen(cfg: Config, n: nat, wire: nat -> Line)
    requires n > 0
    ensures (forall events :: W.Follows(n, Reports(cfg, n, events, wire))) <==> !cfg.lossy || n == 1
  {
    if !cfg.lossy || n == 1 {
      forall events ensures W.Follows(n, Reports(cfg, n, events, wire)) {
        if n == 1 {
          ReportsBelow(cfg, n, events, wire);
          W.SoleClient(Reports(cfg, n, events, wire));
        } else {
          ReportsTell(cfg, n, events, wire);
          W.ClosesAtLastReport(n, Reports(cfg, n, events, wire));
        }
      }
    } else {
      var events := LossClosesEarly(cfg, n, wire);
    }
  }
}
