/** What a concurrent job writes to the WebSocket of the user interface (createAndRunJobWS in
    server/api.go, one goroutine for each client). As far as its reports go, each client is a job of
    its own; the steps of all of them interleave in any way. */
module ConcurrentReports {
  import opened Wrappers
  import opened Jobs
  import J = JobReports
  import W = WebSockets

  datatype Step = Step(client: nat, e: Event)

  /** The steps of client `c`. */
  function Lane(steps: seq<Step>, c: nat): seq<Event> {
    if steps == [] then []
    else
      var last := steps[|steps| - 1];
      Lane(steps[..|steps| - 1], c) + if last.client == c then [last.e] else []
  }

  function Written(cfg: Config, n: nat, front: seq<Step>, last: Step, line: J.Line): seq<W.Report> {
    var r := J.ReportOf(cfg, Run(cfg, 1, Lane(front, last.client)), last.e, line);
    if last.client < n && r != [] then [r[0].(client := last.client)] else []
  }

  /** The writes of a job on `n` clients; `wire` has the line of each step. */
  function Reports(cfg: Config, n: nat, steps: seq<Step>, wire: nat -> J.Line): seq<W.Report> {
    if steps == [] then []
    else
      var front, last := steps[..|steps| - 1], steps[|steps| - 1];
      Reports(cfg, n, front, wire) + Written(cfg, n, front, last, wire(|front|))
  }

  lemma LaneFrom(front: seq<Step>, last: Step, c: nat)
    ensures Lane(front + [last], c) == if last.client == c then Lane(front, c) + [last.e] else Lane(front, c)
  {
    assert (front + [last])[..|front|] == front;
    assert Lane(front, c) + [] == Lane(front, c);
  }

  lemma ReportsFrom(cfg: Config, n: nat, front: seq<Step>, last: Step, wire: nat -> J.Line)
    ensures Reports(cfg, n, front + [last], wire) ==
            Reports(cfg, n, front, wire) + Written(cfg, n, front, last, wire(|front|))
  {
    assert (front + [last])[..|front|] == front;
  }

  // ---- Without lost replies ----

  /** A report is of a client that may have reported, in its own job. */
  ghost predicate Told(cfg: Config, n: nat, steps: seq<Step>, reports: seq<W.Report>) {
    forall c: nat | W.HasReported(reports, c) :: c < n && J.May(Run(cfg, 1, Lane(steps, c)), 0)
  }

  lemma LaneStep(cfg: Config, front: seq<Step>, last: Step, line: J.Line)
    requires !cfg.lossy
    ensures var c := last.client;
            var s, t := Run(cfg, 1, Lane(front, c)), Run(cfg, 1, Lane(front + [last], c));
            && (J.May(s, 0) ==> J.May(t, 0))
            && (J.ReportOf(cfg, s, last.e, line) != [] ==> !J.May(s, 0) && J.May(t, 0))
  {
    var lane := Lane(front, last.client);
    LaneFrom(front, last, last.client);
    RunFrom(cfg, 1, lane, last.e);
    RunValid(cfg, 1, lane);
    J.OneReport(cfg, Run(cfg, 1, lane), last.e, line, 0);
  }

  lemma {:induction false} OnceWithoutLoss(cfg: Config, n: nat, steps: seq<Step>, wire: nat -> J.Line)
    requires !cfg.lossy
    ensures W.OncePerClient(n, Reports(cfg, n, steps, wire)) && Told(cfg, n, steps, Reports(cfg, n, steps, wire))
  {
    if steps != [] {
      var front, last := steps[..|steps| - 1], steps[|steps| - 1];
      assert steps == front + [last];
      OnceWithoutLoss(cfg, n, front, wire);
      LaneStep(cfg, front, last, wire(|front|));
      var reports, r := Reports(cfg, n, front, wire), Written(cfg, n, front, last, wire(|front|));
      assert r != [] ==> !W.HasReported(reports, last.client);
      J.OnceAppend(n, reports, r);
      forall c: nat | W.HasReported(reports + r, c) ensures c < n && J.May(Run(cfg, 1, Lane(steps, c)), 0) {
        J.ReportedAppend(reports, r, c);
        LaneFrom(front, last, c);
      }
    }
  }

  // ---- With lost replies ----

  function ByClient(c: nat, events: seq<Event>): seq<Step> {
    seq(|events|, i requires 0 <= i < |events| => Step(c, events[i]))
  }

  lemma ByClientFrom(c: nat, front: seq<Event>, e: Event)
    ensures ByClient(c, front + [e]) == ByClient(c, front) + [Step(c, e)]
  {}

  /** The reports do not hang on what the lines say. */
  lemma SameCount(cfg: Config, s: State, e: Event, one: J.Line, other: J.Line)
    ensures |J.ReportOf(cfg, s, e, one)| == |J.ReportOf(cfg, s, e, other)| <= 1
  {}

  lemma {:induction false} LanesInARow(steps: seq<Step>, c: nat, events: seq<Event>, d: nat)
    ensures Lane(steps + ByClient(c, events), d) == if d == c then Lane(steps, d) + events else Lane(steps, d)
  {
    if events == [] {
      assert steps + ByClient(c, events) == steps && Lane(steps, d) + events == Lane(steps, d);
    } else {
      var front, e := events[..|events| - 1], events[|events| - 1];
      assert events == front + [e];
      LanesInARow(steps, c, front, d);
      ByClientFrom(c, front, e);
      assert steps + ByClient(c, events) == steps + ByClient(c, front) + [Step(c, e)];
      LaneFrom(steps + ByClient(c, front), Step(c, e), d);
      assert Lane(steps, d) + events == Lane(steps, d) + front + [e];
    }
  }

  /** `all` is `before` and `count` reports more, of client `c`. */
  ghost predicate Adds(before: seq<W.Report>, all: seq<W.Report>, count: nat, c: nat) {
    |all| == |before| + count && before <= all && forall i | |before| <= i < |all| :: all[i].client == c
  }

  lemma AddsMore(before: seq<W.Report>, all: seq<W.Report>, count: nat, c: nat, more: seq<W.Report>)
    requires Adds(before, all, count, c) && forall i | 0 <= i < |more| :: more[i].client == c
    ensures Adds(before, all + more, count + |more|, c)
  {}

  lemma WrittenLike(cfg: Config, n: nat, done: seq<Step>, c: nat, e: Event, line: J.Line, other: J.Line)
    requires c < n
    ensures var w := Written(cfg, n, done, Step(c, e), line);
            && |w| == |J.ReportOf(cfg, Run(cfg, 1, Lane(done, c)), e, other)|
            && forall i | 0 <= i < |w| :: w[i].client == c
  {
    SameCount(cfg, Run(cfg, 1, Lane(done, c)), e, line, other);
  }

  lemma OneMore(cfg: Config, n: nat, done: seq<Step>, c: nat, front: seq<Event>, e: Event, wire: nat -> J.Line,
                before: seq<W.Report>)
    requires c < n && Lane(done, c) == front
    requires Adds(before, Reports(cfg, n, done, wire), |J.Reports(cfg, 1, front, wire)|, c)
    ensures Adds(before, Reports(cfg, n, done + [Step(c, e)], wire), |J.Reports(cfg, 1, front + [e], wire)|, c)
  {
    ReportsFrom(cfg, n, done, Step(c, e), wire);
    J.ReportsFrom(cfg, 1, front, e, wire);
    WrittenLike(cfg, n, done, c, e, wire(|done|), wire(|front|));
    AddsMore(before, Reports(cfg, n, done, wire), |J.Reports(cfg, 1, front, wire)|, c,
             Written(cfg, n, done, Step(c, e), wire(|done|)));
  }

  /** A client that has done nothing yet does, in a row, what it would do in a job of its own: as
      many reports are added as that job has, all of them the client's. */
  lemma {:induction false} InARow(cfg: Config, n: nat, steps: seq<Step>, c: nat, events: seq<Event>, wire: nat -> J.Line)
    requires c < n && Lane(steps, c) == []
    ensures Adds(Reports(cfg, n, steps, wire), Reports(cfg, n, steps + ByClient(c, events), wire),
                 |J.Reports(cfg, 1, events, wire)|, c)
  {
    if events == [] {
      assert steps + ByClient(c, events) == steps;
    } else {
      var front, e := events[..|events| - 1], events[|events| - 1];
      assert events == front + [e];
      InARow(cfg, n, steps, c, front, wire);
      LanesInARow(steps, c, front, c);
      assert [] + front == front;
      ByClientFrom(c, front, e);
      assert steps + ByClient(c, events) == steps + ByClient(c, front) + [Step(c, e)];
      OneMore(cfg, n, steps + ByClient(c, front), c, front, e, wire, Reports(cfg, n, steps, wire));
    }
  }

  /** The same when there were `count` reports, of clients before `c`, and nobody from `c` on had
      done anything. */
  lemma NextInARow(cfg: Config, n: nat, steps: seq<Step>, c: nat, events: seq<Event>, wire: nat -> J.Line)
    requires c < n && W.Only(Reports(cfg, n, steps, wire), c, c) && forall d: nat | d >= c :: Lane(steps, d) == []
    ensures var after := steps + ByClient(c, events);
            W.Only(Reports(cfg, n, after, wire), c + |J.Reports(cfg, 1, events, wire)|, c + 1) &&
            forall d: nat | d > c :: Lane(after, d) == []
  {
    InARow(cfg, n, steps, c, events, wire);
    forall d: nat | d > c ensures Lane(steps + ByClient(c, events), d) == [] {
      LanesInARow(steps, c, events, d);
    }
  }

  /** The request cannot be sent. */
  lemma NotSent(cfg: Config) returns (events: seq<Event>)
    ensures Run(cfg, 1, events) == State(Sending, 0, [Child(Refused, None)], [], [])
    ensures forall e | e in events :: e.Send? || e.Refuse?
  {
    assert [] + [Send] == [Send];
    RunFrom(cfg, 1, [], Send);
    assert Run(cfg, 1, [Send]) == State(Sending, 0, [FRESH], [], []);
    RunFrom(cfg, 1, [Send], Refuse);
    events := [Send] + [Refuse];
  }

  lemma {:induction false} NothingWritten(cfg: Config, events: seq<Event>, wire: nat -> J.Line)
    requires forall e | e in events :: e.Send? || e.Refuse?
    ensures J.Reports(cfg, 1, events, wire) == []
  {
    if events != [] {
      NothingWritten(cfg, events[..|events| - 1], wire);
      assert events[|events| - 1] in events;
    }
  }

  lemma OneFailure(cfg: Config, wire: nat -> J.Line) returns (events: seq<Event>)
    ensures |J.Reports(cfg, 1, events, wire)| == 1
  {
    var front := NotSent(cfg);
    NothingWritten(cfg, front, wire);
    J.ReportsFrom(cfg, 1, front, ReplyError, wire);
    events := front + [ReplyError];
  }

  /** The requests of the first `k` clients fail, and nobody else has done anything. */
  lemma {:induction false} SomeFail(cfg: Config, n: nat, k: nat, wire: nat -> J.Line) returns (steps: seq<Step>)
    requires k <= n
    ensures W.Only(Reports(cfg, n, steps, wire), k, k) && forall d: nat | d >= k :: Lane(steps, d) == []
  {
    if k == 0 {
      steps := [];
    } else {
      var before := SomeFail(cfg, n, k - 1, wire);
      var events := OneFailure(cfg, wire);
      NextInARow(cfg, n, before, k - 1, events, wire);
      steps := before + ByClient(k - 1, events);
    }
  }

  /** Then the reply to client `k` is lost, and it is reported twice. */
  lemma OneTwice(cfg: Config, n: nat, k: nat, wire: nat -> J.Line) returns (steps: seq<Step>)
    requires cfg.lossy && k < n
    ensures W.Only(Reports(cfg, n, steps, wire), k + 2, k + 1) && forall d: nat | d > k :: Lane(steps, d) == []
  {
    var before := SomeFail(cfg, n, k, wire);
    var events := J.ReportsTwice(cfg, 1, 0, wire);
    NextInARow(cfg, n, before, k, events, wire);
    steps := before + ByClient(k, events);
  }

  lemma TwiceFirst(cfg: Config, n: nat, wire: nat -> J.Line) returns (steps: seq<Step>)
    requires cfg.lossy && n > 0
    ensures !W.OncePerClient(n, Reports(cfg, n, steps, wire))
  {
    steps := OneTwice(cfg, n, 0, wire);
    W.TwiceByFirst(n, Reports(cfg, n, steps, wire));
  }

  /** With a lost reply the socket may close although one client has done nothing yet. */
  lemma LossClosesEarly(cfg: Config, n: nat, wire: nat -> J.Line) returns (steps: seq<Step>)
    requires cfg.lossy && n > 1
    ensures W.After(n, Reports(cfg, n, steps, wire)).closed && Lane(steps, n - 1) == []
    ensures !W.Follows(n, Reports(cfg, n, steps, wire))
  {
    steps := OneTwice(cfg, n, n - 2, wire);
    W.ClosedWithout(n, Reports(cfg, n, steps, wire));
  }

  /** Every run has each client report at most once exactly when no reply is ever lost, or there
      are no clients. */
  lemma OnceExactlyWithoutLoss(cfg: Config, n: nat, wire: nat -> J.Line)
    ensures (forall steps :: W.OncePerClient(n, Reports(cfg, n, steps, wire))) <==> !cfg.lossy || n == 0
  {
    if !cfg.lossy {
      forall steps ensures W.OncePerClient(n, Reports(cfg, n, steps, wire)) { OnceWithoutLoss(cfg, n, steps, wire); }
    } else if n == 0 {
      forall steps ensures W.OncePerClient(n, Reports(cfg, n, steps, wire)) { ReportsBelow(cfg, n, steps, wire); }
    } else {
      var steps := TwiceFirst(cfg, n, wire);
    }
  }

  lemma {:induction false} ReportsBelow(cfg: Config, n: nat, steps: seq<Step>, wire: nat -> J.Line)
    ensures W.Only(Reports(cfg, n, steps, wire), |Reports(cfg, n, steps, wire)|, n)
  {
    if steps != [] {
      ReportsBelow(cfg, n, steps[..|steps| - 1], wire);
    }
  }

  /** The socket of a concurrent n-client job has closed itself, at any moment of any run, exactly
      if all have reported: this holds exactly when no reply is ever lost, or there is one client. */
  lemma SocketExactlyWhen(cfg: Config, n: nat, wire: nat -> J.Line)
    requires n > 0
    ensures (forall steps :: W.Follows(n, Reports(cfg, n, steps, wire))) <==> !cfg.lossy || n == 1
  {
    if !cfg.lossy || n == 1 {
      forall steps ensures W.Follows(n, Reports(cfg, n, steps, wire)) {
        if n == 1 {
          ReportsBelow(cfg, n, steps, wire);
          W.SoleClient(Reports(cfg, n, steps, wire));
        } else {
          OnceWithoutLoss(cfg, n, steps, wire);
          W.ClosesAtLastReport(n, Reports(cfg, n, steps, wire));
        }
      }
    } else {
      var steps := LossClosesEarly(cfg, n, wire);
    }
  }
}
