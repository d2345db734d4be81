/** The WebSocket of a user interface that closes itself after a number of writes
    (share/ws/websocket.go), as the reports of a multi-client job reach it (server/api.go,
    server/client_listener.go). */
module WebSockets {
  import Sets

  /** `delivered`: the messages that reached the other side. */
  datatype Socket = Socket(writesBeforeClose: int, closed: bool, delivered: seq<string>)

  /** A write; it fails on a closed connection, and otherwise unless the transport carries it.
      The count goes down either way. */
  function Write(s: Socket, message: string, carried: bool): Socket {
    var left := s.writesBeforeClose - 1;
    Socket(left, s.closed || left == 0, if !s.closed && carried then s.delivered + [message] else s.delivered)
  }

  class ConcurrentWebSocket {
    var writesBeforeClose: int
    var closed: bool
    var delivered: seq<string>

    constructor ()
      ensures Now() == Socket(1, false, [])
    {
      writesBeforeClose, closed, delivered := 1, false, [];
    }

    function Now(): Socket
      reads this
    {
      Socket(writesBeforeClose, closed, delivered)
    }

    method SetWritesBeforeClose(n: int)
      modifies this
      ensures Now() == old(Now()).(writesBeforeClose := n)
    {
      writesBeforeClose := n;
    }

    method Dec()
      modifies this
      ensures delivered == old(delivered) && writesBeforeClose == old(writesBeforeClose) - 1
      ensures closed == (old(closed) || writesBeforeClose == 0)
    {
      writesBeforeClose := writesBeforeClose - 1;
      if writesBeforeClose == 0 {
        closed := true;
      }
    }

    /** Also WriteJSON, which differs in how the message is encoded. */
    method WriteMessage(message: string, carried: bool) returns (ok: bool)
      modifies this
      ensures Now() == Write(old(Now()), message, carried)
      ensures ok == (!old(closed) && carried)
      ensures delivered == old(delivered) + if ok then [message] else []
      ensures writesBeforeClose == old(writesBeforeClose) - 1
      ensures closed == (old(closed) || writesBeforeClose == 0)
    {
      ok := !closed && carried;
      if ok {
        delivered := delivered + [message];
      }
      Dec();
    }

    method Close()
      modifies this
      ensures Now() == old(Now()).(closed := true)
    {
      closed := true;
    }
  }

  // ---- The reports of a job ----

  /** One client's report: that there is no job identifier for it, that its request failed, or the
      result of its command. `carried`: whether the transport carries the message. */
  datatype Report =
    | NoIdentifier(client: nat, message: string, carried: bool)
    | SendFailure(client: nat, message: string, carried: bool)
    | CommandResult(client: nat, message: string, carried: bool)

  /** The socket of an n-client job after some reports. */
  function After(n: int, reports: seq<Report>): Socket {
    if reports == [] then Socket(n, false, [])
    else
      var last := reports[|reports| - 1];
      Write(After(n, reports[..|reports| - 1]), last.message, last.carried)
  }

  /** The messages of the reports the transport carries, in order. */
  function Carried(reports: seq<Report>): seq<string> {
    if reports == [] then []
    else
      var last := reports[|reports| - 1];
      Carried(reports[..|reports| - 1]) + if last.carried then [last.message] else []
  }

  /** Each client of the job reports at most once. */
  ghost predicate OncePerClient(n: nat, reports: seq<Report>) {
    && (forall i | 0 <= i < |reports| :: reports[i].client < n)
    && (forall i, j | 0 <= i < j < |reports| :: reports[i].client != reports[j].client)
  }

  ghost predicate HasReported(reports: seq<Report>, c: nat) {
    exists i | 0 <= i < |reports| :: reports[i].client == c
  }

  function Reporters(reports: seq<Report>): set<nat> {
    if reports == [] then {} else Reporters(reports[..|reports| - 1]) + {reports[|reports| - 1].client}
  }

  lemma {:induction false} ReportersAre(reports: seq<Report>, c: nat)
    ensures c in Reporters(reports) <==> HasReported(reports, c)
  {
    if reports != [] {
      var front := reports[..|reports| - 1];
      ReportersAre(front, c);
      if HasReported(front, c) {
        var i :| 0 <= i < |front| && front[i].client == c;
        assert reports[i].client == c;
      }
      if HasReported(reports, c) && reports[|reports| - 1].client != c {
        var i :| 0 <= i < |reports| && reports[i].client == c;
        assert front[i].client == c;
      }
    }
  }

  lemma {:induction false} CountReporters(n: nat, reports: seq<Report>)
    requires OncePerClient(n, reports)
    ensures |Reporters(reports)| == |reports|
  {
    if reports != [] {
      var front := reports[..|reports| - 1];
      CountReporters(n, front);
      ReportersAre(front, reports[|reports| - 1].client);
    }
  }

  /** There are at most n reports, and n of them exactly when everyone has reported. */
  lemma AllReported(n: nat, reports: seq<Report>)
    requires OncePerClient(n, reports)
    ensures |reports| <= n
    ensures |reports| == n <==> forall c | 0 <= c < n :: HasReported(reports, c)
  {
    CountReporters(n, reports);
    var cs := Reporters(reports);
    forall c | c in cs ensures c in Sets.UpTo(n) {
      ReportersAre(reports, c);
    }
    Sets.SubsetSize(cs, Sets.UpTo(n));
    forall c | 0 <= c < n ensures c in cs <==> HasReported(reports, c) {
      ReportersAre(reports, c);
    }
    if |reports| == n {
      forall c | 0 <= c < n ensures HasReported(reports, c) {
        assert c in Sets.UpTo(n);
      }
    }
    if forall c | 0 <= c < n :: HasReported(reports, c) {
      assert cs == Sets.UpTo(n);
    }
  }

  lemma {:induction false} BeforeTheLast(n: nat, reports: seq<Report>)
    requires |reports| <= n && n > 0
    ensures After(n, reports) == Socket(n - |reports|, |reports| == n, Carried(reports))
  {
    if reports != [] {
      BeforeTheLast(n, reports[..|reports| - 1]);
    }
  }

  /** The socket of an n-client job is closed exactly when all n clients have reported, whichever
      of them failed and in whatever order; until then every report that the transport carries
      is delivered, the last one too. */
  lemma ClosesAtLastReport(n: nat, reports: seq<Report>)
    requires n > 0 && OncePerClient(n, reports)
    ensures After(n, reports).closed <==> forall c | 0 <= c < n :: HasReported(reports, c)
    ensures After(n, reports).delivered == Carried(reports)
  {
    AllReported(n, reports);
    BeforeTheLast(n, reports);
  }

  /** The socket of an n-client job has closed itself exactly if everyone has reported. */
  ghost predicate Follows(n: nat, reports: seq<Report>) {
    After(n, reports).closed <==> forall c | 0 <= c < n :: HasReported(reports, c)
  }

  /** There are `count` reports, of clients below `bound`. */
  ghost predicate Only(reports: seq<Report>, count: nat, bound: nat) {
    |reports| == count && forall i | 0 <= i < count :: reports[i].client < bound
  }

  /** With one client the first report closes the socket, however often it reports. */
  lemma {:induction false} SoleClient(reports: seq<Report>)
    requires Only(reports, |reports|, 1)
    ensures After(1, reports).writesBeforeClose == 1 - |reports|
    ensures After(1, reports).closed <==> reports != []
    ensures Follows(1, reports)
  {
    if reports != [] {
      SoleClient(reports[..|reports| - 1]);
      assert reports[0].client == 0;
    }
    assert HasReported(reports, 0) <==> reports != [];
  }

  lemma TwiceByFirst(n: nat, reports: seq<Report>)
    requires Only(reports, 2, 1)
    ensures !OncePerClient(n, reports)
  {
    assert reports[0].client == reports[1].client;
  }

  /** As many reports as clients close the socket, also if one has not reported. */
  lemma ClosedWithout(n: nat, reports: seq<Report>)
    requires n > 1 && Only(reports, n, n - 1)
    ensures After(n, reports).closed && !HasReported(reports, n - 1) && !Follows(n, reports)
  {
    BeforeTheLast(n, reports);
  }

  /** Started with a count that is not positive the socket never closes itself. */
  lemma {:induction false} NeverCloses(n: int, reports: seq<Report>)
    requires n <= 0
    ensures After(n, reports) == Socket(n - |reports|, false, Carried(reports))
  {
    if reports != [] {
      NeverCloses(n, reports[..|reports| - 1]);
    }
  }
}
