/** How a client runs the commands it is asked to run, one at a time (client/exec.go). The request
    handler, which handles one request after the other, and the observers of the commands
    interleave in any way. */
module Executor {
  import opened Wrappers

  /** A request, with what its checks and the operating system will say. */
  datatype Job = Job(decodes: bool, multi: bool, isScript: bool, interpreterOK: bool, allowed: bool,
                     scriptFileOK: bool, starts: bool, pid: int)

  datatype Config = Config(commandsEnabled: bool, scriptsEnabled: bool)

  datatype Error = Disabled | Undecodable | StillRunning(pid: int) | ScriptsDisabled | Interpreter | NotAllowed |
                   ScriptFile | StartFailed

  datatype Reply = Started(pid: int) | Refused(error: Error)

  /** An observer waits for its command, then unsets the PID, then releases the lock and then
      sends the result. */
  datatype Observer = Watching(pid: int) | Cleared | Reporting

  /** Requests are numbered as they arrive. `waiting`: the handler has a request that waits for
      the lock. `unsent`: the results that could not be sent. */
  datatype State = State(
    curPID: Option<int>,
    locked: bool,
    waiting: Option<Job>,
    observers: map<nat, Observer>,
    replies: seq<Reply>,
    results: seq<nat>,
    unsent: set<nat>
  )

  const NEW := State(None, false, None, map[], [], [], {})

  datatype Event = Request(job: Job) | Acquire | Clear(k: nat) | Release(k: nat) | Report(k: nat, sent: bool)

  /** Why a request is refused before it waits for the lock. */
  function Objection(cfg: Config, job: Job, curPID: Option<int>): Option<Error> {
    if !cfg.commandsEnabled then Some(Disabled)
    else if !job.decodes then Some(Undecodable)
    else if curPID.Some? && !job.multi then Some(StillRunning(curPID.value))
    else if job.isScript && !cfg.scriptsEnabled then Some(ScriptsDisabled)
    else None
  }

  /** Why it is refused with the lock held. */
  function Obstacle(job: Job): Option<Error> {
    if !job.interpreterOK then Some(Interpreter)
    else if !job.isScript && !job.allowed then Some(NotAllowed)
    else if !job.scriptFileOK then Some(ScriptFile)
    else if !job.starts then Some(StartFailed)
    else None
  }

  function Answer(s: State, r: Reply): State { s.(waiting := None, replies := s.replies + [r]) }

  /** Steps that are not possible change nothing. */
  function Next(cfg: Config, s: State, e: Event): State {
    match e
    case Request(job) =>
      if s.waiting.Some? then s
      else
        var objection := Objection(cfg, job, s.curPID);
        if objection.Some? then Answer(s, Refused(objection.value)) else s.(waiting := Some(job))
    case Acquire =>
      if s.waiting.None? || s.locked then s
      else
        var job, k := s.waiting.value, |s.replies|;
        if Obstacle(job).Some? then Answer(s, Refused(Obstacle(job).value))
        else
          Answer(s, Started(job.pid))
            .(curPID := Some(job.pid), locked := true, observers := s.observers[k := Watching(job.pid)])
    case Clear(k) =>
      if k in s.observers && s.observers[k].Watching? then s.(curPID := None, observers := s.observers[k := Cleared])
      else s
    case Release(k) =>
      if k in s.observers && s.observers[k].Cleared? then s.(locked := false, observers := s.observers[k := Reporting])
      else s
    case Report(k, sent) =>
      if k in s.observers && s.observers[k].Reporting? then
        s.(observers := s.observers - {k}, results := if sent then s.results + [k] else s.results,
           unsent := if sent then s.unsent else s.unsent + {k})
      else s
  }

  function Run(cfg: Config, events: seq<Event>): State {
    if events == [] then NEW else Next(cfg, Run(cfg, events[..|events| - 1]), events[|events| - 1])
  }

  // ---- The same in place ----

  class Client {
    const cfg: Config
    var curPID: Option<int>
    var locked: bool
    var waiting: Option<Job>
    var observers: map<nat, Observer>
    var replies: seq<Reply>
    var results: seq<nat>
    var unsent: set<nat>

    constructor (cfg: Config)
      ensures this.cfg == cfg && Now() == NEW
    {
      this.cfg := cfg;
      curPID, locked, waiting, observers := None, false, None, map[];
      replies, results, unsent := [], [], {};
    }

    ghost function Now(): State
      reads this
    {
      State(curPID, locked, waiting, observers, replies, results, unsent)
    }

    method ReplyWith(r: Reply)
      modifies this`waiting, this`replies
      ensures waiting == None && replies == old(replies) + [r]
    {
      waiting, replies := None, replies + [r];
    }

    /** The first part of HandleRunCmdRequest, up to the lock. */
    method HandleRunCmdRequest(job: Job)
      requires waiting == None
      modifies this
      ensures Now() == Next(cfg, old(Now()), Request(job))
    {
      if !cfg.commandsEnabled {
        ReplyWith(Refused(Disabled));
        return;
      }
      if !job.decodes {
        ReplyWith(Refused(Undecodable));
        return;
      }
      if curPID.Some? {
        if !job.multi {
          ReplyWith(Refused(StillRunning(curPID.value)));
          return;
        }
      }
      if job.isScript && !cfg.scriptsEnabled {
        ReplyWith(Refused(ScriptsDisabled));
        return;
      }
      waiting := Some(job);
    }

    /** The second part, from the moment the lock is free. */
    method Proceed()
      requires waiting.Some? && !locked
      modifies this
      ensures Now() == Next(cfg, old(Now()), Acquire)
    {
      var job := waiting.value;
      locked := true;
      if !job.interpreterOK {
        locked := false;
        ReplyWith(Refused(Interpreter));
        return;
      }
      if !job.isScript && !job.allowed {
        locked := false;
        ReplyWith(Refused(NotAllowed));
        return;
      }
      if !job.scriptFileOK {
        locked := false;
        ReplyWith(Refused(ScriptFile));
        return;
      }
      if !job.starts {
        locked := false;
        ReplyWith(Refused(StartFailed));
        return;
      }
      curPID := Some(job.pid);
      observers := observers[|replies| := Watching(job.pid)];
      ReplyWith(Started(job.pid));
    }

    /** An observer stops observing: unsets the PID, unlocks, and sends the result. */
    method Observe(k: nat, sent: bool)
      requires k in observers && observers[k].Watching?
      modifies this
      ensures Now() == Next(cfg, Next(cfg, Next(cfg, old(Now()), Clear(k)), Release(k)), Report(k, sent))
    {
      curPID, observers := None, observers[k := Cleared];
      locked, observers := false, observers[k := Reporting];
      observers := observers - {k};
      if sent {
        results := results + [k];
      } else {
        unsent := unsent + {k};
      }
    }
  }

  // ---- What every run keeps ----

  /** The observer has not released the lock. */
  predicate Holds(s: State, k: nat) { k in s.observers && !s.observers[k].Reporting? }

  ghost predicate Discipline(s: State) {
    && (forall j, k | Holds(s, j) && Holds(s, k) :: j == k)
    && (s.locked <==> exists k :: Holds(s, k))
    && (forall k | k in s.observers && s.observers[k].Watching? :: s.curPID == Some(s.observers[k].pid))
    && (s.curPID.Some? ==> exists k :: Holds(s, k) && s.observers[k] == Watching(s.curPID.value))
  }

  predicate WasStarted(s: State, k: nat) { k < |s.replies| && s.replies[k].Started? }

  /** A request that was answered with a PID is under observation, or its result was sent once, or
      failed to be sent; any other request has no result. */
  ghost predicate Accounted(s: State) {
    && (forall k :: WasStarted(s, k) <==> k in s.observers || k in s.results || k in s.unsent)
    && (forall k | k in s.observers :: k !in s.results && k !in s.unsent)
    && (forall k | k in s.results :: k !in s.unsent)
    && (forall i, j | 0 <= i < j < |s.results| :: s.results[i] != s.results[j])
  }

  lemma AcquireDisciplined(cfg: Config, s: State)
    requires Discipline(s) && Accounted(s) && Next(cfg, s, Acquire).locked && !s.locked
    ensures Discipline(Next(cfg, s, Acquire))
  {
    var n, k := Next(cfg, s, Acquire), |s.replies|;
    assert !WasStarted(s, k);
    forall j ensures Holds(n, j) <==> j == k {
      assert !Holds(s, j);
    }
    forall j | j in n.observers && n.observers[j].Watching? ensures j == k {
      assert Holds(n, j);
    }
    assert Holds(n, k) && n.observers[k] == Watching(n.curPID.value);
  }

  lemma ObserverDisciplined(cfg: Config, s: State, e: Event)
    requires Discipline(s) && (e.Clear? || e.Release?) && Holds(s, e.k) && Next(cfg, s, e) != s
    ensures Discipline(Next(cfg, s, e))
  {
    var n := Next(cfg, s, e);
    forall j | j in n.observers ensures Holds(n, j) <==> j == e.k && e.Clear? {
      assert Holds(n, j) ==> Holds(s, j);
    }
    if e.Clear? {
      assert Holds(n, e.k);
    }
  }

  lemma ReportDisciplined(cfg: Config, s: State, k: nat, sent: bool)
    requires Discipline(s)
    ensures Discipline(Next(cfg, s, Report(k, sent)))
  {
    var n := Next(cfg, s, Report(k, sent));
    forall j ensures Holds(n, j) <==> Holds(s, j) {}
  }

  lemma NextDisciplined(cfg: Config, s: State, e: Event)
    requires Discipline(s) && Accounted(s)
    ensures Discipline(Next(cfg, s, e))
  {
    var n := Next(cfg, s, e);
    match e
    case Request(_) => forall j ensures Holds(n, j) <==> Holds(s, j) {}
    case Acquire =>
      if n.locked && !s.locked {
        AcquireDisciplined(cfg, s);
      } else {
        forall j ensures Holds(n, j) <==> Holds(s, j) {}
      }
    case Report(k, sent) => ReportDisciplined(cfg, s, k, sent);
    case _ =>
      if n != s {
        ObserverDisciplined(cfg, s, e);
      }
  }

  lemma NextAccounted(cfg: Config, s: State, e: Event)
    requires Accounted(s)
    ensures Accounted(Next(cfg, s, e))
  {
    var n := Next(cfg, s, e);
    assert forall k :: WasStarted(n, k) <==> WasStarted(s, k) || (k == |s.replies| && WasStarted(n, k));
  }

  /** Over every run: at most one command is observed; the lock is held exactly while one is; the
      PID is set exactly while one is waited for, and is that command's. */
  lemma {:induction false} OneCommandAtATime(cfg: Config, events: seq<Event>)
    ensures Discipline(Run(cfg, events)) && Accounted(Run(cfg, events))
  {
    if events != [] {
      OneCommandAtATime(cfg, events[..|events| - 1]);
      NextDisciplined(cfg, Run(cfg, events[..|events| - 1]), events[|events| - 1]);
      NextAccounted(cfg, Run(cfg, events[..|events| - 1]), events[|events| - 1]);
    }
  }

  /** A request for this client alone is refused because of a running command exactly while one
      is waited for, and names its PID. */
  lemma RefusedExactlyWhileWatched(cfg: Config, events: seq<Event>, job: Job, pid: int)
    requires cfg.commandsEnabled && job.decodes && !job.multi && Run(cfg, events).waiting.None?
    ensures var s := Run(cfg, events);
            Next(cfg, s, Request(job)).replies == s.replies + [Refused(StillRunning(pid))] <==>
            exists k :: k in s.observers && s.observers[k] == Watching(pid)
  {
    OneCommandAtATime(cfg, events);
    var s := Run(cfg, events);
    var after := Next(cfg, s, Request(job)).replies;
    if s.curPID == Some(pid) {
      assert after == s.replies + [Refused(StillRunning(pid))];
    } else {
      assert after == s.replies || after[|s.replies|] != Refused(StillRunning(pid));
    }
  }

  /** With remote commands disabled no command is ever started and no result sent. */
  lemma {:induction false} DisabledRunsNothing(cfg: Config, events: seq<Event>)
    requires !cfg.commandsEnabled
    ensures var s := Run(cfg, events);
            s.waiting.None? && s.observers == map[] && s.results == [] && forall k :: !WasStarted(s, k)
  {
    if events != [] {
      var front := events[..|events| - 1];
      DisabledRunsNothing(cfg, front);
      forall k ensures !WasStarted(Run(cfg, events), k) {
        assert !WasStarted(Run(cfg, front), k);
      }
    }
  }

  // ---- Why a request is refused ----

  /** The requests in the order of their replies. */
  function Answered(cfg: Config, events: seq<Event>): seq<Job> {
    if events == [] then []
    else
      var front, e := events[..|events| - 1], events[|events| - 1];
      var s, n := Run(cfg, front), Run(cfg, events);
      if |n.replies| == |s.replies| then Answered(cfg, front)
      else if e.Request? then Answered(cfg, front) + [e.job]
      else if s.waiting.Some? then Answered(cfg, front) + [s.waiting.value]
      else Answered(cfg, front)
  }

  /** What may have been found before the lock. */
  predicate PassesFirst(cfg: Config, job: Job) {
    cfg.commandsEnabled && job.decodes && (job.isScript ==> cfg.scriptsEnabled)
  }

  /** A reply fits its request. */
  predicate Fits(cfg: Config, job: Job, r: Reply) {
    match r
    case Started(pid) =>
      && cfg.commandsEnabled && job.decodes && (job.isScript ==> cfg.scriptsEnabled)
      && job.interpreterOK && (job.isScript || job.allowed) && job.scriptFileOK && job.starts && pid == job.pid
    case Refused(Disabled) => !cfg.commandsEnabled
    case Refused(Undecodable) => cfg.commandsEnabled && !job.decodes
    case Refused(StillRunning(_)) => cfg.commandsEnabled && job.decodes && !job.multi
    case Refused(ScriptsDisabled) => cfg.commandsEnabled && job.decodes && job.isScript && !cfg.scriptsEnabled
    case Refused(Interpreter) => PassesFirst(cfg, job) && !job.interpreterOK
    case Refused(NotAllowed) => PassesFirst(cfg, job) && job.interpreterOK && !job.isScript && !job.allowed
    case Refused(ScriptFile) =>
      PassesFirst(cfg, job) && job.interpreterOK && (job.isScript || job.allowed) && !job.scriptFileOK
    case Refused(StartFailed) =>
      PassesFirst(cfg, job) && job.interpreterOK && (job.isScript || job.allowed) && job.scriptFileOK && !job.starts
  }

  lemma NextFits(cfg: Config, s: State, e: Event)
    requires s.waiting.Some? ==> PassesFirst(cfg, s.waiting.value)
    ensures var n := Next(cfg, s, e);
            && (n.waiting.Some? ==> PassesFirst(cfg, n.waiting.value))
            && (n.replies == s.replies ||
                (e.Request? && n.replies == s.replies + [n.replies[|s.replies|]] && Fits(cfg, e.job, n.replies[|s.replies|])) ||
                (e.Acquire? && s.waiting.Some? && n.replies == s.replies + [n.replies[|s.replies|]] &&
                 Fits(cfg, s.waiting.value, n.replies[|s.replies|])))
  {}

  /** Over every run each request is answered for a reason: started exactly if all is well with it
      and, for a single-client request, nothing else is running; refused for the first thing that is
      not. So no command that is not allowed, and no script where scripts are disabled, ever starts. */
  lemma {:induction false} RepliesFit(cfg: Config, events: seq<Event>)
    ensures var s, jobs := Run(cfg, events), Answered(cfg, events);
            && |jobs| == |s.replies| && (forall k | 0 <= k < |jobs| :: Fits(cfg, jobs[k], s.replies[k]))
            && (s.waiting.Some? ==> PassesFirst(cfg, s.waiting.value))
  {
    if events != [] {
      var front, e := events[..|events| - 1], events[|events| - 1];
      RepliesFit(cfg, front);
      NextFits(cfg, Run(cfg, front), e);
    }
  }

  // ---- What a request comes to ----

  /** A request that finds the handler free: it waits for the lock exactly if its first checks pass
      and it is for several clients or no command is waited for; else it is answered. Nothing else
      about the client changes. */
  lemma RequestTaken(cfg: Config, events: seq<Event>, job: Job)
    requires Run(cfg, events).waiting.None?
    ensures var s, n := Run(cfg, events), Next(cfg, Run(cfg, events), Request(job));
            && (n.waiting == Some(job) <==>
                PassesFirst(cfg, job) && (job.multi || forall k | k in s.observers :: !s.observers[k].Watching?))
            && (n.waiting == Some(job) ==> n.replies == s.replies)
            && (n.waiting != Some(job) ==>
                n.waiting == None && exists e :: n.replies == s.replies + [Refused(e)] && Fits(cfg, job, Refused(e)))
            && n.curPID == s.curPID && n.locked == s.locked && n.observers == s.observers
            && n.results == s.results && n.unsent == s.unsent
  {
    OneCommandAtATime(cfg, events);
    var s, n := Run(cfg, events), Next(cfg, Run(cfg, events), Request(job));
    if s.curPID.Some? {
      var k :| Holds(s, k) && s.observers[k] == Watching(s.curPID.value);
    }
    if n.waiting != Some(job) {
      NextFits(cfg, s, Request(job));
      var e := Objection(cfg, job, s.curPID).value;
      assert n.replies == s.replies + [Refused(e)];
    }
  }

  lemma RunNext(cfg: Config, events: seq<Event>, e: Event)
    ensures Run(cfg, events + [e]) == Next(cfg, Run(cfg, events), e)
  {
    assert (events + [e])[..|events|] == events;
  }

  /** Everything is in order for the command to start. */
  predicate Ready(job: Job) {
    job.interpreterOK && (job.isScript || job.allowed) && job.scriptFileOK && job.starts
  }

  /** A waiting request whose turn it is, no command holding the lock: it is answered. If all is in
      order the command starts and is watched, with the lock held; otherwise nothing is started. */
  lemma CommandServed(cfg: Config, events: seq<Event>)
    requires var s := Run(cfg, events); s.waiting.Some? && forall k :: !Holds(s, k)
    ensures var s, n := Run(cfg, events), Run(cfg, events + [Acquire]);
            var job, k := s.waiting.value, |s.replies|;
            && n.waiting == None && n.results == s.results && n.unsent == s.unsent && k !in s.observers
            && if Ready(job) then
                 && n.replies == s.replies + [Started(job.pid)] && n.observers == s.observers[k := Watching(job.pid)]
                 && n.locked && n.curPID == Some(job.pid)
               else
                 && (exists e :: n.replies == s.replies + [Refused(e)] && Fits(cfg, job, Refused(e)))
                 && n.observers == s.observers && !n.locked && n.curPID == None
  {
    OneCommandAtATime(cfg, events);
    RepliesFit(cfg, events);
    var s := Run(cfg, events);
    assert !WasStarted(s, |s.replies|);
    RunNext(cfg, events, Acquire);
    if !Ready(s.waiting.value) {
      NextFits(cfg, s, Acquire);
      assert Next(cfg, s, Acquire).replies == s.replies + [Refused(Obstacle(s.waiting.value).value)];
    }
  }

  /** When a watched command ends, its PID is unset, the lock is free again, and its result is sent
      or lost; nothing else about the client changes. */
  lemma CommandEnds(cfg: Config, events: seq<Event>, k: nat, sent: bool)
    requires k in Run(cfg, events).observers && Run(cfg, events).observers[k].Watching?
    ensures var s, end := Run(cfg, events), Run(cfg, events + [Clear(k)] + [Release(k)] + [Report(k, sent)]);
            && end.curPID == None && !end.locked && end.observers == s.observers - {k}
            && end.waiting == s.waiting && end.replies == s.replies
            && end.results == (if sent then s.results + [k] else s.results)
            && end.unsent == (if sent then s.unsent else s.unsent + {k})
  {
    RunNext(cfg, events, Clear(k));
    RunNext(cfg, events + [Clear(k)], Release(k));
    RunNext(cfg, events + [Clear(k)] + [Release(k)], Report(k, sent));
  }
}
