/** The sequential multi-client job (server/api.go, server/client_listener.go): one runner, its
    clients and the listeners of their results, interleaved in any way. */
module Jobs {
  import opened Wrappers

  /** The status of a result that a client sends. */
  datatype Status = Successful | Failed | Unknown

  /** A row of the jobs table: created as running or as failed, or replaced by a result. */
  datatype Row = CreatedRunning | CreatedFailed | Result(status: Status)

  /** Where the job of one client is. `Refused`: the request failed and no command runs.
      `Sent`: the result is on its way. `Saved`: the listener saved it and is about to look up
      the runner's channel. `Pending`: a goroutine offers it on the channel. `Dropped`: it never
      gets there. */
  datatype Phase =
    | NotStarted | NoID | Refused | Running | Sent(status: Status) | Saved(status: Status)
    | Pending(status: Status) | Consumed(status: Status) | Dropped

  datatype Child = Child(phase: Phase, row: Option<Row>)

  const FRESH := Child(NotStarted, None)

  /** What the runner does for the client under the cursor; `Closed`: the channel is closed but
      still registered. */
  datatype Runner = Idle | Sending | Creating(ok: bool) | Waiting | Closed | Done

  /** `needsID`: a missing job identifier ends the run (as it does for a job over a WebSocket).
      `lossy`: the reply to a request may be lost although the client started the command. */
  datatype Config = Config(abortOnErr: bool, needsID: bool, lossy: bool)

  /** `cursor` clients have been dealt with. `starts` lists the clients as they started their
      commands, `waits` for each wait of the runner the client awaited and the one heard of. */
  datatype State = State(runner: Runner, cursor: nat, children: seq<Child>, starts: seq<nat>, waits: seq<(nat, nat)>)

  /** `Drop`: a result is lost on the way or, having `arrived`, cannot be saved. */
  datatype Event =
    | FailID | Send | Start | Refuse | ReplyOK | ReplyError | Create(stores: bool) | End | Unregister
    | Finish(child: nat, status: Status) | Drop(child: nat, arrived: bool) | Save(child: nat) | Forward(child: nat)
    | Receive(child: nat)

  function Initial(n: nat): State { State(Idle, 0, seq(n, _ => FRESH), [], []) }

  /** The command was started and its result has not reached the runner. */
  predicate Active(p: Phase) { p.Running? || p.Sent? || p.Saved? || p.Pending? || p.Dropped? }

  /** The runner is through with the client. */
  predicate Settled(p: Phase) { p.NoID? || p.Refused? || p.Consumed? }

  /** The run ends with this client. */
  predicate Stops(cfg: Config, p: Phase) {
    match p
    case NoID => cfg.abortOnErr || cfg.needsID
    case Refused => cfg.abortOnErr
    case Consumed(status) => cfg.abortOnErr && status == Failed
    case _ => false
  }

  function WithPhase(s: State, j: nat, p: Phase): State
    requires j < |s.children|
  {
    s.(children := s.children[j := s.children[j].(phase := p)])
  }

  function WithRow(s: State, j: nat, row: Option<Row>): State
    requires j < |s.children|
  {
    s.(children := s.children[j := s.children[j].(row := row)])
  }

  /** The runner goes on to the next client, or closes the channel. */
  function Advance(s: State, stops: bool): State {
    s.(runner := if stops then Closed else Idle, cursor := s.cursor + 1)
  }

  // ---- Steps ----

  /** A step of the runner, or of the client it is sending to. */
  function RunnerStep(cfg: Config, s: State, e: Event): State
    requires s.cursor < |s.children|
  {
    var i, p := s.cursor, s.children[s.cursor].phase;
    match e
    case FailID =>
      if s.runner != Idle then s else Advance(WithPhase(s, i, NoID), Stops(cfg, NoID))
    case Send => if s.runner != Idle then s else s.(runner := Sending)
    case Start =>
      if s.runner != Sending || p != NotStarted then s
      else WithPhase(s, i, Running).(starts := s.starts + [i])
    case Refuse => if s.runner != Sending || p != NotStarted then s else WithPhase(s, i, Refused)
    case ReplyOK => if s.runner != Sending || !Active(p) then s else s.(runner := Creating(true))
    case ReplyError =>
      if s.runner != Sending || !(p.Refused? || (cfg.lossy && Active(p))) then s
      else s.(runner := Creating(false))
    case Create(stores) =>
      if !s.runner.Creating? then s
      else
        var row := s.children[i].row;
        var made := if s.runner.ok then CreatedRunning else CreatedFailed;
        var t := if stores && row.None? then WithRow(s, i, Some(made)) else s;
        if s.runner.ok then t.(runner := Waiting) else Advance(t, cfg.abortOnErr)
    case _ => s
  }

  /** A step of a result on its way from client `j` to the runner. */
  function ResultStep(cfg: Config, s: State, e: Event, j: nat): State
    requires j < |s.children|
  {
    var p := s.children[j].phase;
    match e
    case Finish(_, status) => if !p.Running? then s else WithPhase(s, j, Sent(status))
    case Drop(_, _) => if !p.Sent? then s else WithPhase(s, j, Dropped)
    case Save(_) => if !p.Sent? then s else WithRow(WithPhase(s, j, Saved(p.status)), j, Some(Result(p.status)))
    case Forward(_) =>
      if !p.Saved? then s else WithPhase(s, j, if s.runner != Done then Pending(p.status) else Dropped)
    case Receive(_) =>
      if s.runner != Waiting || !p.Pending? then s
      else
        Advance(WithPhase(s, j, Consumed(p.status)), cfg.abortOnErr && p.status == Failed)
          .(waits := s.waits + [(s.cursor, j)])
    case _ => s
  }

  /** Steps that are not possible change nothing. */
  function Next(cfg: Config, s: State, e: Event): State {
    if e.End? then
      if s.runner == Idle && s.cursor == |s.children| then s.(runner := Closed) else s
    else if e.Unregister? then
      if s.runner == Closed then s.(runner := Done) else s
    else if e.Finish? || e.Drop? || e.Save? || e.Forward? || e.Receive? then
      if e.child < |s.children| then ResultStep(cfg, s, e, e.child) else s
    else if s.cursor < |s.children| then RunnerStep(cfg, s, e)
    else s
  }

  function Run(cfg: Config, n: nat, events: seq<Event>): State {
    if events == [] then Initial(n) else Next(cfg, Run(cfg, n, events[..|events| - 1]), events[|events| - 1])
  }

  // ---- What every run keeps when no reply is lost ----

  predicate Over(s: State) { s.runner == Closed || s.runner == Done }

  /** The client under the cursor, as the runner knows it. */
  predicate CurrentFits(s: State)
    requires s.cursor < |s.children|
  {
    var c := s.children[s.cursor];
    match s.runner
    case Idle => c == FRESH
    case Sending => c == FRESH || c.phase.Refused? || Active(c.phase)
    case Creating(ok) => if ok then Active(c.phase) else c.phase.Refused?
    case Waiting => Active(c.phase)
    case _ => c == FRESH
  }

  ghost predicate Valid(cfg: Config, s: State) {
    && s.cursor <= |s.children|
    && (forall j | 0 <= j < s.cursor :: Settled(s.children[j].phase))
    && (forall j | 0 <= j < s.cursor && Stops(cfg, s.children[j].phase) :: Over(s) && j == s.cursor - 1)
    && (forall j | s.cursor < j < |s.children| :: s.children[j] == FRESH)
    && (if s.cursor < |s.children| then CurrentFits(s) else s.runner == Idle || Over(s))
    && (Over(s) ==> s.cursor == |s.children| || (s.cursor > 0 && Stops(cfg, s.children[s.cursor - 1].phase)))
  }

  lemma AdvanceStepValid(cfg: Config, s: State, e: Event)
    requires Valid(cfg, s) && !cfg.lossy && s.cursor < |s.children| && (e.FailID? || e.Create?)
    ensures Valid(cfg, RunnerStep(cfg, s, e))
  {}

  lemma RunnerStepValid(cfg: Config, s: State, e: Event)
    requires Valid(cfg, s) && !cfg.lossy && s.cursor < |s.children|
    ensures Valid(cfg, RunnerStep(cfg, s, e))
  {
    if e.FailID? || e.Create? {
      AdvanceStepValid(cfg, s, e);
    }
  }

  lemma ResultStepValid(cfg: Config, s: State, e: Event, j: nat)
    requires Valid(cfg, s) && !cfg.lossy && j < |s.children|
    ensures Valid(cfg, ResultStep(cfg, s, e, j))
  {
    assert Active(s.children[j].phase) ==> j == s.cursor;
  }

  predicate OfResult(e: Event) { e.Finish? || e.Drop? || e.Save? || e.Forward? || e.Receive? }

  lemma NextValid(cfg: Config, s: State, e: Event)
    requires Valid(cfg, s) && !cfg.lossy
    ensures Valid(cfg, Next(cfg, s, e)) && |Next(cfg, s, e).children| == |s.children|
  {
    if OfResult(e) {
      if e.child < |s.children| {
        ResultStepValid(cfg, s, e, e.child);
      }
    } else if !e.End? && !e.Unregister? && s.cursor < |s.children| {
      RunnerStepValid(cfg, s, e);
    }
  }

  lemma {:induction false} RunValid(cfg: Config, n: nat, events: seq<Event>)
    requires !cfg.lossy
    ensures Valid(cfg, Run(cfg, n, events)) && |Run(cfg, n, events).children| == n
  {
    if events == [] {
      assert Run(cfg, n, events) == Initial(n);
    } else {
      RunValid(cfg, n, events[..|events| - 1]);
      NextValid(cfg, Run(cfg, n, events[..|events| - 1]), events[|events| - 1]);
    }
  }

  /** At most one client is started and unreported, and it is the one under the cursor. */
  lemma OneAtATime(cfg: Config, n: nat, events: seq<Event>, j: nat)
    requires !cfg.lossy && j < n
    ensures var s := Run(cfg, n, events); |s.children| == n && (Active(s.children[j].phase) ==> j == s.cursor)
  {
    RunValid(cfg, n, events);
  }

  /** What ends a run: with abort-on-error a missing identifier, a failed request or a failed
      command, and a missing identifier also if every client needs one. */
  lemma StopsMeans(cfg: Config, p: Phase)
    ensures Stops(cfg, p) <==>
            (cfg.abortOnErr && (p == NoID || p == Refused || p == Consumed(Failed))) || (cfg.needsID && p == NoID)
  {}

  /** Nothing is sent after a failure with abort-on-error, nor after a missing identifier where
      every client needs one. */
  lemma NothingAfterFailure(cfg: Config, n: nat, events: seq<Event>, j: nat, k: nat)
    requires !cfg.lossy && j < k < n
    ensures var s := Run(cfg, n, events);
            |s.children| == n &&
            var p := s.children[j].phase;
            ((cfg.abortOnErr && (p == NoID || p == Refused || p == Consumed(Failed))) || (cfg.needsID && p == NoID) ==>
               s.children[k] == FRESH)
  {
    RunValid(cfg, n, events);
    var s := Run(cfg, n, events);
    StopsMeans(cfg, s.children[j].phase);
    if Stops(cfg, s.children[j].phase) {
      assert s.cursor == j + 1 || s.cursor == j;
    }
  }

  /** A run that is over dealt with every client, unless one before the last ended it: with
      abort-on-error by a failure, or without an identifier where one is needed. */
  lemma OverMeansThrough(cfg: Config, n: nat, events: seq<Event>)
    requires !cfg.lossy && Over(Run(cfg, n, events))
    ensures var s := Run(cfg, n, events);
            |s.children| == n && s.cursor <= n &&
            (forall j | 0 <= j < s.cursor :: Settled(s.children[j].phase)) &&
            (s.cursor < n <==>
             exists j | 0 <= j < n - 1 ::
               var p := s.children[j].phase;
               (cfg.abortOnErr && (p == NoID || p == Refused || p == Consumed(Failed))) || (cfg.needsID && p == NoID))
  {
    RunValid(cfg, n, events);
    var s := Run(cfg, n, events);
    forall j | 0 <= j < n
      ensures var p := s.children[j].phase;
              Stops(cfg, p) <==>
              (cfg.abortOnErr && (p == NoID || p == Refused || p == Consumed(Failed))) || (cfg.needsID && p == NoID)
    {
      StopsMeans(cfg, s.children[j].phase);
    }
    if s.cursor < n {
      var j := s.cursor - 1;
      assert 0 <= j < n - 1 && Stops(cfg, s.children[j].phase);
    }
  }

  /** Without abort-on-error every client is attempted. */
  lemma EveryoneAttempted(cfg: Config, n: nat, events: seq<Event>)
    requires !cfg.lossy && !cfg.abortOnErr && !cfg.needsID && Over(Run(cfg, n, events))
    ensures var s := Run(cfg, n, events); |s.children| == n && forall j | 0 <= j < n :: Settled(s.children[j].phase)
  {
    OverMeansThrough(cfg, n, events);
  }

  // ---- The k-th wait gets the result of the k-th start ----

  predicate CurrentActive(s: State) { s.cursor < |s.children| && Active(s.children[s.cursor].phase) }

  /** One wait for each start, but for the client that is active now. */
  ghost predicate Logged(s: State) {
    && (forall a, b | 0 <= a < b < |s.starts| :: s.starts[a] < s.starts[b])
    && |s.starts| == |s.waits| + (if CurrentActive(s) then 1 else 0)
    && (forall k | 0 <= k < |s.waits| :: s.waits[k] == (s.starts[k], s.starts[k]) && s.starts[k] < s.cursor)
    && (CurrentActive(s) ==> s.starts[|s.waits|] == s.cursor)
    && (forall j | 0 <= j < |s.children| && s.children[j].phase.Consumed? :: (j, j) in s.waits)
  }

  lemma NextLogged(cfg: Config, s: State, e: Event)
    requires Valid(cfg, s) && !cfg.lossy && Logged(s)
    ensures Logged(Next(cfg, s, e))
  {
    if OfResult(e) && e.child < |s.children| {
      ResultStepLogged(cfg, s, e, e.child);
    } else if !OfResult(e) && !e.End? && !e.Unregister? && s.cursor < |s.children| {
      RunnerStepLogged(cfg, s, e);
    }
  }

  lemma StartLogged(cfg: Config, s: State)
    requires Valid(cfg, s) && !cfg.lossy && Logged(s) && s.cursor < |s.children|
    ensures Logged(RunnerStep(cfg, s, Start))
  {}

  lemma AdvanceLogged(cfg: Config, s: State, e: Event)
    requires Valid(cfg, s) && !cfg.lossy && Logged(s) && s.cursor < |s.children| && (e.FailID? || e.Create?)
    ensures Logged(RunnerStep(cfg, s, e))
  {}

  lemma RunnerStepLogged(cfg: Config, s: State, e: Event)
    requires Valid(cfg, s) && !cfg.lossy && Logged(s) && s.cursor < |s.children|
    ensures Logged(RunnerStep(cfg, s, e))
  {
    if e.Start? {
      StartLogged(cfg, s);
    } else if e.FailID? || e.Create? {
      AdvanceLogged(cfg, s, e);
    }
  }

  lemma ResultStepLogged(cfg: Config, s: State, e: Event, j: nat)
    requires Valid(cfg, s) && !cfg.lossy && Logged(s) && j < |s.children|
    ensures Logged(ResultStep(cfg, s, e, j))
  {
    assert Active(s.children[j].phase) ==> j == s.cursor;
  }

  /** Commands start in list order; the k-th wait is for the k-th one started and consumes its
      result; every result consumed was waited for. */
  lemma {:induction false} WaitsFollowStarts(cfg: Config, n: nat, events: seq<Event>)
    requires !cfg.lossy
    ensures Logged(Run(cfg, n, events))
  {
    if events != [] {
      WaitsFollowStarts(cfg, n, events[..|events| - 1]);
      RunValid(cfg, n, events[..|events| - 1]);
      NextLogged(cfg, Run(cfg, n, events[..|events| - 1]), events[|events| - 1]);
    }
  }

  // ---- Lost replies ----

  /** Each wait got the result it waited for, and nobody sends on a closed channel. */
  ghost predicate Clean(s: State) {
    && (forall k | 0 <= k < |s.waits| :: s.waits[k].0 == s.waits[k].1)
    && (Over(s) ==> forall j | 0 <= j < |s.children| :: !s.children[j].phase.Saved? && !s.children[j].phase.Pending?)
  }

  lemma LosslessIsClean(cfg: Config, n: nat, events: seq<Event>)
    requires !cfg.lossy || n == 0
    ensures Clean(Run(cfg, n, events))
  {
    if n == 0 {
      NoClients(cfg, events);
    } else {
      RunValid(cfg, n, events);
      WaitsFollowStarts(cfg, n, events);
    }
  }

  lemma {:induction false} NoClients(cfg: Config, events: seq<Event>)
    ensures var s := Run(cfg, 0, events); s.children == [] && s.waits == [] && s.cursor == 0
  {
    if events != [] {
      NoClients(cfg, events[..|events| - 1]);
    }
  }

  lemma RunFrom(cfg: Config, n: nat, front: seq<Event>, e: Event)
    ensures Run(cfg, n, front + [e]) == Next(cfg, Run(cfg, n, front), e)
  {
    assert (front + [e])[..|front|] == front;
  }

  /** The runner is at client `k`, whose job is in phase `p`; nobody after it has been asked. */
  ghost predicate At(s: State, n: nat, k: nat, r: Runner, p: Phase) {
    && |s.children| == n && s.cursor == k < n && s.runner == r && s.children[k].phase == p
    && (forall j | k < j < n :: s.children[j] == FRESH)
  }

  /** From there a step leads to runner `r2` and phase `p2`. */
  predicate Leads(cfg: Config, e: Event, k: nat, r: Runner, p: Phase, r2: Runner, p2: Phase) {
    match e
    case Send => r == Idle && r2 == Sending && p2 == p
    case Start => r == Sending && p == NotStarted && r2 == r && p2 == Running
    case Finish(j, status) => j == k && p == Running && r2 == r && p2 == Sent(status)
    case Save(j) => j == k && p.Sent? && r2 == r && p2 == Saved(p.status)
    case Forward(j) => j == k && p.Saved? && r != Done && r2 == r && p2 == Pending(p.status)
    case ReplyOK => r == Sending && Active(p) && r2 == Creating(true) && p2 == p
    case ReplyError => cfg.lossy && r == Sending && Active(p) && r2 == Creating(false) && p2 == p
    case Create(_) => r == Creating(true) && r2 == Waiting && p2 == p
    case _ => false
  }

  /** The step leaves the waits and the earlier clients alone. */
  lemma StepAt(cfg: Config, s: State, e: Event, n: nat, k: nat, r: Runner, p: Phase, r2: Runner, p2: Phase)
    requires At(s, n, k, r, p) && Leads(cfg, e, k, r, p, r2, p2)
    ensures var t := Next(cfg, s, e);
            At(t, n, k, r2, p2) && t.waits == s.waits && t.children[..k] == s.children[..k]
  {}

  lemma RunAt(cfg: Config, n: nat, front: seq<Event>, e: Event, k: nat, r: Runner, p: Phase, r2: Runner, p2: Phase)
    requires At(Run(cfg, n, front), n, k, r, p) && Leads(cfg, e, k, r, p, r2, p2)
    ensures var s, t := Run(cfg, n, front), Run(cfg, n, front + [e]);
            At(t, n, k, r2, p2) && t.waits == s.waits && t.children[..k] == s.children[..k]
  {
    StepAt(cfg, Run(cfg, n, front), e, n, k, r, p, r2, p2);
    RunFrom(cfg, n, front, e);
  }

  lemma InitialAt(cfg: Config, n: nat)
    requires n > 0
    ensures At(Run(cfg, n, []), n, 0, Idle, NotStarted)
  {}

  /** The client under the cursor is asked and starts its command. */
  lemma Starts(cfg: Config, n: nat, front: seq<Event>, k: nat) returns (events: seq<Event>)
    requires At(Run(cfg, n, front), n, k, Idle, NotStarted)
    ensures events == front + [Send] + [Start]
    ensures var s, t := Run(cfg, n, front), Run(cfg, n, events);
            At(t, n, k, Sending, Running) && t.waits == s.waits && t.children[..k] == s.children[..k]
  {
    RunAt(cfg, n, front, Send, k, Idle, NotStarted, Sending, NotStarted);
    RunAt(cfg, n, front + [Send], Start, k, Sending, NotStarted, Sending, Running);
    events := front + [Send] + [Start];
  }

  /** The first client runs its command and its result is offered before the runner learns,
      wrongly, that the request failed. */
  lemma LostReply(cfg: Config, n: nat) returns (events: seq<Event>)
    requires cfg.lossy && n > 0
    ensures At(Run(cfg, n, events), n, 0, Creating(false), Pending(Successful)) && Run(cfg, n, events).waits == []
  {
    InitialAt(cfg, n);
    events := Starts(cfg, n, [], 0);
    RunAt(cfg, n, events, Finish(0, Successful), 0, Sending, Running, Sending, Sent(Successful));
    events := events + [Finish(0, Successful)];
    RunAt(cfg, n, events, Save(0), 0, Sending, Sent(Successful), Sending, Saved(Successful));
    events := events + [Save(0)];
    RunAt(cfg, n, events, Forward(0), 0, Sending, Saved(Successful), Sending, Pending(Successful));
    events := events + [Forward(0)];
    RunAt(cfg, n, events, ReplyError, 0, Sending, Pending(Successful), Creating(false), Pending(Successful));
    events := events + [ReplyError];
  }

  /** The runner goes on, or gives up. */
  lemma GivenUp(cfg: Config, s: State, n: nat)
    requires At(s, n, 0, Creating(false), Pending(Successful)) && s.waits == []
    ensures var t := Next(cfg, s, Create(false));
            && |t.children| == n && t.waits == [] && t.cursor == 1 && t.children[0].phase == Pending(Successful)
            && (forall j | 0 < j < n :: t.children[j] == FRESH)
            && t.runner == if cfg.abortOnErr then Closed else Idle
  {}

  /** The client under the cursor starts, and the runner waits for it. */
  lemma Awaits(cfg: Config, n: nat, front: seq<Event>, k: nat) returns (events: seq<Event>)
    requires At(Run(cfg, n, front), n, k, Idle, NotStarted)
    ensures var s, t := Run(cfg, n, front), Run(cfg, n, events);
            At(t, n, k, Waiting, Running) && t.waits == s.waits && t.children[..k] == s.children[..k]
  {
    events := Starts(cfg, n, front, k);
    RunAt(cfg, n, events, ReplyOK, k, Sending, Running, Creating(true), Running);
    events := events + [ReplyOK];
    RunAt(cfg, n, events, Create(false), k, Creating(true), Running, Waiting, Running);
    events := events + [Create(false)];
  }

  lemma TakesPending(cfg: Config, s: State, n: nat)
    requires At(s, n, 1, Waiting, Running) && s.children[..1][0].phase == Pending(Successful)
    ensures Next(cfg, s, Receive(0)).waits == s.waits + [(1, 0)]
  {}

  /** Then the wait for the second client may take the wrong result. */
  lemma WrongResult(cfg: Config, n: nat, front: seq<Event>) returns (events: seq<Event>)
    requires n > 1 && At(Run(cfg, n, front), n, 1, Idle, NotStarted)
    requires Run(cfg, n, front).waits == [] && Run(cfg, n, front).children[0].phase == Pending(Successful)
    ensures Run(cfg, n, events).waits == [(1, 0)]
  {
    events := Awaits(cfg, n, front, 1);
    TakesPending(cfg, Run(cfg, n, events), n);
    RunFrom(cfg, n, events, Receive(0));
    events := events + [Receive(0)];
  }

  /** Or the channel is closed under the pending result. */
  lemma LossBreaks(cfg: Config, n: nat) returns (events: seq<Event>)
    requires cfg.lossy && n > 0
    ensures !Clean(Run(cfg, n, events))
  {
    events := LostReply(cfg, n);
    GivenUp(cfg, Run(cfg, n, events), n);
    RunFrom(cfg, n, events, Create(false));
    events := events + [Create(false)];
    assert Run(cfg, n, events).children[0].phase.Pending?;
    if !cfg.abortOnErr {
      if n == 1 {
        RunFrom(cfg, n, events, End);
        events := events + [End];
        assert Run(cfg, n, events).children[0].phase.Pending?;
      } else {
        events := WrongResult(cfg, n, events);
        assert Run(cfg, n, events).waits[0] == (1, 0);
      }
    }
  }

  /** The job is carried out cleanly in every run exactly when no reply is ever lost, whatever
      the number of clients (but zero) and the options. */
  lemma CleanExactlyWithoutLoss(cfg: Config, n: nat)
    ensures (forall events :: Clean(Run(cfg, n, events))) <==> !cfg.lossy || n == 0
  {
    if !cfg.lossy || n == 0 {
      forall events ensures Clean(Run(cfg, n, events)) { LosslessIsClean(cfg, n, events); }
    } else {
      var events := LossBreaks(cfg, n);
    }
  }

  // ---- A run comes to an end ----

  /** Steps still possible, at most: eight for each client, and two to close. */
  function Remaining(s: State): int {
    8 * (|s.children| - s.cursor) - (if s.cursor < |s.children| then RunnerStage(s.runner) + Stage(s.children[s.cursor].phase) else 0)
    + (match s.runner case Closed => 1 case Done => 0 case _ => 2)
  }

  function RunnerStage(r: Runner): nat {
    match r
    case Sending => 1
    case Creating(_) => 2
    case Waiting => 3
    case _ => 0
  }

  function Stage(p: Phase): nat {
    match p
    case Running => 1
    case Refused => 1
    case Sent(_) => 2
    case Saved(_) => 3
    case Dropped => 3
    case Pending(_) => 4
    case _ => 0
  }

  lemma ResultStepCounts(cfg: Config, s: State, e: Event, j: nat)
    requires Valid(cfg, s) && !cfg.lossy && j < |s.children|
    ensures ResultStep(cfg, s, e, j) != s ==> Remaining(ResultStep(cfg, s, e, j)) < Remaining(s)
  {
    assert Active(s.children[j].phase) ==> j == s.cursor;
  }

  lemma RunnerStepCounts(cfg: Config, s: State, e: Event)
    requires Valid(cfg, s) && !cfg.lossy && s.cursor < |s.children|
    ensures RunnerStep(cfg, s, e) != s ==> Remaining(RunnerStep(cfg, s, e)) < Remaining(s)
  {}

  lemma StepCounts(cfg: Config, s: State, e: Event)
    requires Valid(cfg, s) && !cfg.lossy
    ensures Remaining(s) >= 0
    ensures Next(cfg, s, e) != s ==> Remaining(Next(cfg, s, e)) < Remaining(s)
  {
    if OfResult(e) && e.child < |s.children| {
      ResultStepCounts(cfg, s, e, e.child);
    } else if !OfResult(e) && !e.End? && !e.Unregister? && s.cursor < |s.children| {
      RunnerStepCounts(cfg, s, e);
    }
  }

  /** The steps of a run that change anything. */
  function Changes(cfg: Config, n: nat, events: seq<Event>): nat {
    if events == [] then 0
    else
      var front := events[..|events| - 1];
      Changes(cfg, n, front) + if Run(cfg, n, events) != Run(cfg, n, front) then 1 else 0
  }

  /** No run goes on for ever. */
  lemma {:induction false} RunsAreFinite(cfg: Config, n: nat, events: seq<Event>)
    requires !cfg.lossy
    ensures 0 <= Remaining(Run(cfg, n, events)) <= 8 * n + 2 - Changes(cfg, n, events)
  {
    RunValid(cfg, n, events);
    if events != [] {
      var front, e := events[..|events| - 1], events[|events| - 1];
      RunsAreFinite(cfg, n, front);
      RunValid(cfg, n, front);
      StepCounts(cfg, Run(cfg, n, front), e);
    }
    StepCounts(cfg, Run(cfg, n, events), End);
  }

  /** Some step that is possible. */
  function Possible(s: State): Event {
    if s.runner == Closed then Unregister
    else if s.cursor >= |s.children| then End
    else
      var p := s.children[s.cursor].phase;
      if s.runner == Idle then Send
      else if s.runner == Sending then (if p.NotStarted? then Start else if p.Refused? then ReplyError else ReplyOK)
      else if s.runner.Creating? then Create(true)
      else if p.Running? then Finish(s.cursor, Unknown)
      else if p.Sent? then Save(s.cursor)
      else if p.Saved? then Forward(s.cursor)
      else Receive(s.cursor)
  }

  lemma PossibleHappens(cfg: Config, s: State)
    requires Valid(cfg, s) && s.runner != Done
    requires s.runner == Waiting ==> !s.children[s.cursor].phase.Dropped?
    ensures Next(cfg, s, Possible(s)) != s
  {}

  /** The runner is stuck only when it is done, or when the result it waits for was lost on the
      way or could not be saved. */
  lemma StuckOnlyOnDroppedResult(cfg: Config, n: nat, events: seq<Event>)
    requires !cfg.lossy
    ensures var s := Run(cfg, n, events);
            (forall e :: Next(cfg, s, e) == s) <==>
            s.runner == Done ||
            (s.runner == Waiting && s.cursor < |s.children| && s.children[s.cursor].phase.Dropped?)
  {
    RunValid(cfg, n, events);
    var s := Run(cfg, n, events);
    if s.runner == Done || (s.runner == Waiting && s.children[s.cursor].phase.Dropped?) {
      forall e ensures Next(cfg, s, e) == s {
        if OfResult(e) && e.child < |s.children| {
          assert Active(s.children[e.child].phase) ==> e.child == s.cursor;
        }
      }
    } else {
      PossibleHappens(cfg, s);
    }
  }

  // ---- Rows ----

  /** A row holds the result from the moment it is saved, and none before. */
  predicate RowFits(c: Child) {
    match c.phase
    case NotStarted => c.row.None?
    case NoID => c.row.None?
    case Refused => c.row.None? || c.row == Some(CreatedFailed)
    case Running => c.row.None? || !c.row.value.Result?
    case Sent(_) => c.row.None? || !c.row.value.Result?
    case Saved(status) => c.row == Some(Result(status))
    case Pending(status) => c.row == Some(Result(status))
    case Consumed(status) => c.row == Some(Result(status))
    case Dropped => true
  }

  /** The rows fit, and the runner creates a row only for a client it has asked. */
  ghost predicate RowsFit(s: State) {
    && (forall j | 0 <= j < |s.children| :: RowFits(s.children[j]))
    && (forall j | s.cursor < j < |s.children| :: s.children[j] == FRESH)
    && (s.cursor < |s.children| ==>
          var p := s.children[s.cursor].phase;
          match s.runner
          case Idle => p.NotStarted?
          case Sending => !p.NoID?
          case Creating(ok) => !p.NotStarted? && !p.NoID? && (ok ==> !p.Refused?)
          case _ => true)
  }

  lemma RunnerKeepsRows(cfg: Config, s: State, e: Event)
    requires RowsFit(s) && s.cursor < |s.children|
    ensures RowsFit(RunnerStep(cfg, s, e))
  {}

  lemma ResultKeepsRows(cfg: Config, s: State, e: Event, j: nat)
    requires RowsFit(s) && j < |s.children|
    ensures RowsFit(ResultStep(cfg, s, e, j))
  {}

  /** Over every run, with lost replies too: a saved result is what the row holds, whether it
      came before or after the row was created. */
  lemma {:induction false} RowsHoldResults(cfg: Config, n: nat, events: seq<Event>)
    ensures RowsFit(Run(cfg, n, events))
  {
    if events != [] {
      RowsHoldResults(cfg, n, events[..|events| - 1]);
      var s, e := Run(cfg, n, events[..|events| - 1]), events[|events| - 1];
      if OfResult(e) {
        if e.child < |s.children| {
          ResultKeepsRows(cfg, s, e, e.child);
        }
      } else if !e.End? && !e.Unregister? && s.cursor < |s.children| {
        RunnerKeepsRows(cfg, s, e);
      }
    }
  }

  /** With no reply lost the row of a running command never says failed. */
  ghost predicate RowsTell(s: State) {
    && (forall j | 0 <= j < |s.children| && Active(s.children[j].phase) :: s.children[j].row != Some(CreatedFailed))
    && (s.runner == Waiting || s.runner == Creating(true) ==>
          s.cursor < |s.children| && Active(s.children[s.cursor].phase))
  }

  lemma NextRowsTell(cfg: Config, s: State, e: Event)
    requires Valid(cfg, s) && !cfg.lossy && RowsTell(s)
    ensures RowsTell(Next(cfg, s, e))
  {
    if OfResult(e) && e.child < |s.children| {
      assert Active(s.children[e.child].phase) ==> e.child == s.cursor;
    }
  }

  lemma {:induction false} RowsTellTruth(cfg: Config, n: nat, events: seq<Event>)
    requires !cfg.lossy
    ensures RowsTell(Run(cfg, n, events))
  {
    if events != [] {
      RowsTellTruth(cfg, n, events[..|events| - 1]);
      RunValid(cfg, n, events[..|events| - 1]);
      NextRowsTell(cfg, Run(cfg, n, events[..|events| - 1]), events[|events| - 1]);
    }
  }

  /** If it can be stored, the job that was just sent has a row: its result if that has come
      already, or else one that says whether it runs. */
  lemma CreateMakesRow(cfg: Config, n: nat, events: seq<Event>)
    requires Run(cfg, n, events).runner.Creating? && Run(cfg, n, events).cursor < n
    ensures var s, t := Run(cfg, n, events), Run(cfg, n, events + [Create(true)]);
            && |t.children| == |s.children| == n
            && t.children[s.cursor].row ==
               if s.children[s.cursor].row.Some? then s.children[s.cursor].row
               else Some(if s.runner.ok then CreatedRunning else CreatedFailed)
  {
    ChildrenStay(cfg, n, events);
    RunFrom(cfg, n, events, Create(true));
  }

  lemma {:induction false} ChildrenStay(cfg: Config, n: nat, events: seq<Event>)
    ensures |Run(cfg, n, events).children| == n
  {
    if events == [] {
      assert Run(cfg, n, events) == Initial(n);
    } else {
      ChildrenStay(cfg, n, events[..|events| - 1]);
      SameChildren(cfg, Run(cfg, n, events[..|events| - 1]), events[|events| - 1]);
    }
  }

  lemma SameChildren(cfg: Config, s: State, e: Event)
    ensures |Next(cfg, s, e).children| == |s.children|
  {}

  /** A finished job never goes back. */
  lemma ResultStays(cfg: Config, n: nat, events: seq<Event>, e: Event, j: nat)
    requires j < |Run(cfg, n, events).children|
    requires Run(cfg, n, events).children[j].row.Some? && Run(cfg, n, events).children[j].row.value.Result?
    ensures var after := Run(cfg, n, events + [e]);
            j < |after.children| && after.children[j].row == Run(cfg, n, events).children[j].row
  {
    RowsHoldResults(cfg, n, events);
    RunFrom(cfg, n, events, e);
  }

  // ---- The runner on its own ----

  /** How many clients the runner deals with, when it finds each of them to end in `outcomes`. */
  function Attempts(cfg: Config, outcomes: seq<Phase>): (k: nat)
    ensures k <= |outcomes|
    ensures forall j | 0 <= j < k - 1 :: !Stops(cfg, outcomes[j])
    ensures k < |outcomes| ==> k > 0 && Stops(cfg, outcomes[k - 1])
  {
    if outcomes == [] then 0
    else if Stops(cfg, outcomes[0]) then 1
    else 1 + Attempts(cfg, outcomes[1..])
  }

  /** The loop over the ordered clients, as if nothing else were going on: `outcomes[i]` is what
      becomes of client i if it is attempted. */
  method ExecuteMultiClientJob(cfg: Config, outcomes: seq<Phase>) returns (attempted: nat)
    requires forall j | 0 <= j < |outcomes| :: Settled(outcomes[j])
    ensures attempted <= |outcomes|
    ensures forall j | 0 <= j < attempted - 1 ::
              !(cfg.abortOnErr && (outcomes[j] == NoID || outcomes[j] == Refused || outcomes[j] == Consumed(Failed))) &&
              !(cfg.needsID && outcomes[j] == NoID)
    ensures attempted < |outcomes| ==>
              attempted > 0 &&
              var p := outcomes[attempted - 1];
              (cfg.abortOnErr && (p == NoID || p == Refused || p == Consumed(Failed))) || (cfg.needsID && p == NoID)
    ensures attempted == Attempts(cfg, outcomes)
  {
    attempted := 0;
    for i := 0 to |outcomes|
      invariant attempted == i
      invariant forall j | 0 <= j < i ::
                  !(cfg.abortOnErr && (outcomes[j] == NoID || outcomes[j] == Refused || outcomes[j] == Consumed(Failed))) &&
                  !(cfg.needsID && outcomes[j] == NoID)
    {
      attempted := i + 1;
      if outcomes[i].NoID? && cfg.needsID {
        break;
      }
      if !outcomes[i].Consumed? {
        if cfg.abortOnErr {
          break;
        }
        continue;
      }
      if cfg.abortOnErr && outcomes[i].status == Failed {
        break;
      }
    }
    AttemptsUnique(cfg, outcomes, attempted);
  }

  lemma AttemptsUnique(cfg: Config, outcomes: seq<Phase>, k: nat)
    requires k <= |outcomes| && forall j | 0 <= j < k - 1 :: !Stops(cfg, outcomes[j])
    requires k < |outcomes| ==> k > 0 && Stops(cfg, outcomes[k - 1])
    ensures k == Attempts(cfg, outcomes)
  {
    var a := Attempts(cfg, outcomes);
    assert 0 < k < |outcomes| ==> Stops(cfg, outcomes[k - 1]);
    assert 0 < a < |outcomes| ==> Stops(cfg, outcomes[a - 1]);
  }

  /** The clients dealt with have ended as in `outcomes`. */
  ghost predicate EndsIn(s: State, outcomes: seq<Phase>) {
    |outcomes| == |s.children| && forall j | 0 <= j < |outcomes| && j < s.cursor :: s.children[j].phase == outcomes[j]
  }

  /** Every interleaving deals with exactly the clients the loop alone would deal with. */
  lemma InterleavingsAgree(cfg: Config, n: nat, events: seq<Event>, outcomes: seq<Phase>)
    requires !cfg.lossy && Over(Run(cfg, n, events)) && EndsIn(Run(cfg, n, events), outcomes)
    ensures Run(cfg, n, events).cursor == Attempts(cfg, outcomes)
  {
    RunValid(cfg, n, events);
  }
}
