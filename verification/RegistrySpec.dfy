/** The client registry, an in-memory cache in front of a table, as values: what each operation
    of server/clients/cr.go, server/clients/sqlite.go and server/client_service.go does to it,
    and what every run keeps. */
module RegistrySpec {
  import opened Wrappers

  type Time = int

  /** A cached client. `conn` tells client objects apart; those read back from the table have
      no connection and carry 0. */
  datatype Entry = Entry(authID: string, conn: nat, disconnectedAt: Option<Time>)

  datatype Row = Row(authID: string, disconnectedAt: Option<Time>)

  datatype Repo = Repo(cache: map<string, Entry>, table: map<string, Row>)

  /** How long lost clients are kept (absent when the setting is zero), whether one set of
      credentials may serve several clients, and the rounding the table compares times with. */
  datatype Config = Config(keepLost: Option<nat>, multiUse: bool, round: Time -> int)
  {
    function TableKeeps(): nat { if keepLost.Some? then keepLost.value else 0 }
  }

  ghost predicate Monotone(round: Time -> int) {
    forall s, t | s <= t :: round(s) <= round(t)
  }

  predicate Obsolete(keepLost: Option<nat>, disconnectedAt: Option<Time>, now: Time) {
    keepLost.Some? && disconnectedAt.Some? && disconnectedAt.value + keepLost.value < now
  }

  function RowOf(e: Entry): Row { Row(e.authID, e.disconnectedAt) }

  // ---- The repository as functions ----

  function Saved(r: Repo, id: string, e: Entry): Repo {
    Repo(r.cache[id := e], r.table[id := RowOf(e)])
  }

  function Deleted(r: Repo, id: string): Repo {
    Repo(r.cache - {id}, r.table - {id})
  }

  /** Rows the table drops at `now`. */
  predicate Expired(cfg: Config, row: Row, now: Time) {
    row.disconnectedAt.Some? && cfg.round(row.disconnectedAt.value) < cfg.round(now - cfg.TableKeeps())
  }

  /** A cleanup reads the clock twice: first for the table, then for the cache. */
  function Cleaned(cfg: Config, r: Repo, tableNow: Time, cacheNow: Time): Repo {
    Repo(map id | id in r.cache && !Obsolete(cfg.keepLost, r.cache[id].disconnectedAt, cacheNow) :: r.cache[id],
         map id | id in r.table && !Expired(cfg, r.table[id], tableNow) :: r.table[id])
  }

  /** Clients that are not obsolete. */
  predicate Present(cfg: Config, r: Repo, id: string, now: Time) {
    id in r.cache && !Obsolete(cfg.keepLost, r.cache[id].disconnectedAt, now)
  }

  ghost predicate AuthIDInUse(cfg: Config, r: Repo, authID: string, id: string, now: Time) {
    exists other :: Present(cfg, r, other, now) && r.cache[other].authID == authID && other != id
  }

  datatype StartOutcome = Started | IDInUse | AuthInUse | TunnelsFailed | NotSaved

  ghost function StartOutcomeOf(cfg: Config, r: Repo, authID: string, id: string, now: Time,
                                tunnelsStart: bool, saves: bool): StartOutcome {
    if Present(cfg, r, id, now) && r.cache[id].disconnectedAt.None? then IDInUse
    else if !cfg.multiUse && AuthIDInUse(cfg, r, authID, id, now) then AuthInUse
    else if !tunnelsStart then TunnelsFailed
    else if !saves then NotSaved
    else Started
  }

  ghost function StartClient(cfg: Config, r: Repo, authID: string, id: string, conn: nat, now: Time,
                             tunnelsStart: bool, saves: bool): Repo {
    if StartOutcomeOf(cfg, r, authID, id, now, tunnelsStart, saves) == Started then
      Saved(r, id, Entry(authID, conn, None))
    else r
  }

  /** The cached client of connection `conn`, if it is still there, is disconnected as of `now`. */
  function Marked(r: Repo, authID: string, id: string, conn: nat, now: Time): Repo {
    if id in r.cache && r.cache[id] == Entry(authID, conn, r.cache[id].disconnectedAt) then
      r.(cache := r.cache[id := Entry(authID, conn, Some(now))])
    else r
  }

  /** The end of connection `conn`. The cached object is marked first; the mark stays even if
      the table cannot be written. */
  function Terminate(cfg: Config, r: Repo, authID: string, id: string, conn: nat, now: Time, stores: bool): Repo {
    if cfg.keepLost.None? then (if stores then Deleted(r, id) else r)
    else
      var marked := Marked(r, authID, id, conn, now);
      if Present(cfg, marked, id, now) && stores then Saved(marked, id, Entry(authID, conn, Some(now))) else marked
  }

  function DeleteOffline(cfg: Config, r: Repo, id: string, now: Time, stores: bool): Repo {
    if id != "" && Present(cfg, r, id, now) && r.cache[id].disconnectedAt.Some? && stores then Deleted(r, id) else r
  }

  /** Saving a known client again, after a change that does not concern us. */
  function Touch(cfg: Config, r: Repo, id: string, now: Time, saves: bool): Repo {
    if Present(cfg, r, id, now) && saves then Saved(r, id, r.cache[id]) else r
  }

  /** A row read back at start-up; one that was connected counts as disconnected now. */
  function Revived(row: Row, now: Time): Row {
    if row.disconnectedAt.Some? then row else row.(disconnectedAt := Some(now))
  }

  /** The state after a restart: rows within the keeping time come back, and the ones marked as
      disconnected are written back. */
  function Reload(cfg: Config, r: Repo, now: Time): Repo {
    Repo(map id | id in r.table && !Expired(cfg, r.table[id], now) ::
           Entry(r.table[id].authID, 0, Revived(r.table[id], now).disconnectedAt),
         map id | id in r.table :: Revived(r.table[id], now))
  }

  // ---- Runs ----

  /** An open connection of a started client. */
  datatype Conn = Conn(id: string, authID: string, conn: nat)

  datatype System = System(repo: Repo, open: set<Conn>, nextConn: nat, clock: Time)

  /** One atomic step. Storage failures are inputs; so is whether the tunnels start. */
  datatype Event =
    | StartEvent(authID: string, id: string, now: Time, tunnelsStart: bool, saves: bool)
    | TerminateEvent(c: Conn, now: Time, stores: bool)
    | DeleteEvent(id: string, now: Time, stores: bool)
    | TouchEvent(id: string, now: Time, saves: bool)
    | CleanupEvent(now: Time, later: Time, stores: bool)
    | RestartEvent(now: Time)

  const EMPTY := System(Repo(map[], map[]), {}, 1, 0)

  /** Time does not go back, and a connection ends once. */
  predicate Enabled(s: System, e: Event) {
    && s.clock <= e.now
    && (e.TerminateEvent? ==> e.c in s.open)
    && (e.CleanupEvent? ==> e.now <= e.later)
  }

  ghost function Next(cfg: Config, s: System, e: Event): System {
    if !Enabled(s, e) then s
    else
      match e
      case StartEvent(authID, id, now, tunnelsStart, saves) =>
        var repo := StartClient(cfg, s.repo, authID, id, s.nextConn, now, tunnelsStart, saves);
        if StartOutcomeOf(cfg, s.repo, authID, id, now, tunnelsStart, saves) == Started then
          System(repo, s.open + {Conn(id, authID, s.nextConn)}, s.nextConn + 1, now)
        else System(repo, s.open, s.nextConn, now)
      case TerminateEvent(c, now, stores) =>
        System(Terminate(cfg, s.repo, c.authID, c.id, c.conn, now, stores), s.open - {c}, s.nextConn, now)
      case DeleteEvent(id, now, stores) =>
        System(DeleteOffline(cfg, s.repo, id, now, stores), s.open, s.nextConn, now)
      case TouchEvent(id, now, saves) =>
        System(Touch(cfg, s.repo, id, now, saves), s.open, s.nextConn, now)
      case CleanupEvent(now, later, stores) =>
        System(if stores then Cleaned(cfg, s.repo, now, later) else s.repo, s.open, s.nextConn, later)
      case RestartEvent(now) => System(Reload(cfg, s.repo, now), {}, s.nextConn, now)
  }

  ghost function Run(cfg: Config, events: seq<Event>): System {
    if events == [] then EMPTY
    else Next(cfg, Run(cfg, events[..|events| - 1]), events[|events| - 1])
  }

  // ---- Connected clients stay ----

  /** Every open connection is the connected client filed under its identifier. */
  ghost predicate OpenAreCached(s: System) {
    forall c | c in s.open ::
      && c.conn < s.nextConn
      && c.id in s.repo.cache && s.repo.cache[c.id] == Entry(c.authID, c.conn, None)
  }

  lemma StartNeverReplaces(cfg: Config, r: Repo, authID: string, id: string, conn: nat, now: Time,
                           tunnelsStart: bool, saves: bool)
    requires id in r.cache && r.cache[id].disconnectedAt.None?
    ensures StartOutcomeOf(cfg, r, authID, id, now, tunnelsStart, saves) == IDInUse
    ensures StartClient(cfg, r, authID, id, conn, now, tunnelsStart, saves) == r
  {}

  lemma NextKeepsOpen(cfg: Config, s: System, e: Event)
    requires OpenAreCached(s)
    ensures OpenAreCached(Next(cfg, s, e))
    ensures forall c | c in s.open && !e.RestartEvent? && e != TerminateEvent(c, e.now, true) &&
                       e != TerminateEvent(c, e.now, false) :: c in Next(cfg, s, e).open
  {
    if Enabled(s, e) && e.StartEvent? && e.id in s.repo.cache && s.repo.cache[e.id].disconnectedAt.None? {
      StartNeverReplaces(cfg, s.repo, e.authID, e.id, s.nextConn, e.now, e.tunnelsStart, e.saves);
    }
  }

  /** A client is never replaced while connected: once started it stays filed, connected, until
      its own connection ends or the server restarts. */
  lemma {:induction false} ConnectedStay(cfg: Config, events: seq<Event>)
    ensures OpenAreCached(Run(cfg, events))
  {
    if events != [] {
      ConnectedStay(cfg, events[..|events| - 1]);
      NextKeepsOpen(cfg, Run(cfg, events[..|events| - 1]), events[|events| - 1]);
    }
  }

  /** The end of an open connection takes effect on its own client, wherever the run has led:
      gone if lost clients are not kept, otherwise disconnected as of now, in the cache and, if it
      can be written, in the table; every other client stays as it was. */
  lemma TerminateTakesEffect(cfg: Config, events: seq<Event>, c: Conn, now: Time, stores: bool, other: string)
    requires c in Run(cfg, events).open && Run(cfg, events).clock <= now
    ensures var r, after := Run(cfg, events).repo, Next(cfg, Run(cfg, events), TerminateEvent(c, now, stores)).repo;
            && (cfg.keepLost.None? && stores ==> c.id !in after.cache && c.id !in after.table)
            && (cfg.keepLost.Some? ==> c.id in after.cache && after.cache[c.id] == Entry(c.authID, c.conn, Some(now)))
            && (cfg.keepLost.Some? && stores ==> c.id in after.table && after.table[c.id] == Row(c.authID, Some(now)))
            && (other != c.id ==>
                  (other in after.cache <==> other in r.cache) && (other in after.table <==> other in r.table) &&
                  (other in r.cache ==> after.cache[other] == r.cache[other]) &&
                  (other in r.table ==> after.table[other] == r.table[other]))
  {
    ConnectedStay(cfg, events);
  }

  // ---- One client per credentials ----

  /** Clients that are not obsolete at `t` and have the same credentials are one client. */
  ghost predicate AuthUnique(cfg: Config, r: Repo, t: Time) {
    forall a, b | Present(cfg, r, a, t) && Present(cfg, r, b, t) && r.cache[a].authID == r.cache[b].authID :: a == b
  }

  /** A row that no restart brings back as a present client. */
  predicate Gone(cfg: Config, row: Row, t: Time) {
    Obsolete(cfg.keepLost, row.disconnectedAt, t) || Expired(cfg, row, t)
  }

  /** The table agrees with the cache, except on rows that are gone anyway. */
  ghost predicate Synced(cfg: Config, r: Repo, t: Time) {
    forall id | id in r.table ::
      (id in r.cache && RowOf(r.cache[id]) == r.table[id]) || Gone(cfg, r.table[id], t)
  }

  lemma GoneForGood(cfg: Config, row: Row, t: Time, u: Time)
    requires Monotone(cfg.round) && t <= u && Gone(cfg, row, t)
    ensures Gone(cfg, row, u)
  {
    var k := cfg.TableKeeps();
    assert cfg.round(t - k) <= cfg.round(u - k);
  }

  /** Uniqueness at one time is uniqueness later, as long as nothing happens. */
  lemma AuthUniqueLater(cfg: Config, r: Repo, t: Time, u: Time)
    requires AuthUnique(cfg, r, t) && t <= u
    ensures AuthUnique(cfg, r, u)
  {
    forall id | Present(cfg, r, id, u) ensures Present(cfg, r, id, t) {}
  }

  lemma StartKeepsAuth(cfg: Config, s: System, e: Event)
    requires e.StartEvent? && Enabled(s, e) && !cfg.multiUse && AuthUnique(cfg, s.repo, s.clock)
    ensures AuthUnique(cfg, Next(cfg, s, e).repo, Next(cfg, s, e).clock)
  {
    AuthUniqueLater(cfg, s.repo, s.clock, e.now);
    var after := Next(cfg, s, e).repo;
    forall id | Present(cfg, after, id, e.now) && id != e.id ensures Present(cfg, s.repo, id, e.now) {}
  }

  lemma TerminateKeepsAuth(cfg: Config, s: System, e: Event)
    requires e.TerminateEvent? && Enabled(s, e) && AuthUnique(cfg, s.repo, s.clock) && OpenAreCached(s)
    ensures AuthUnique(cfg, Next(cfg, s, e).repo, Next(cfg, s, e).clock)
  {
    AuthUniqueLater(cfg, s.repo, s.clock, e.now);
    var after := Next(cfg, s, e).repo;
    forall id | Present(cfg, after, id, e.now)
      ensures Present(cfg, s.repo, id, e.now) && after.cache[id].authID == s.repo.cache[id].authID
    {}
  }

  lemma RemovalKeepsAuth(cfg: Config, s: System, e: Event)
    requires (e.DeleteEvent? || e.TouchEvent? || e.CleanupEvent?) && Enabled(s, e) && AuthUnique(cfg, s.repo, s.clock)
    ensures AuthUnique(cfg, Next(cfg, s, e).repo, Next(cfg, s, e).clock)
  {
    var n := Next(cfg, s, e);
    AuthUniqueLater(cfg, s.repo, s.clock, n.clock);
    forall id | Present(cfg, n.repo, id, n.clock)
      ensures Present(cfg, s.repo, id, n.clock) && n.repo.cache[id] == s.repo.cache[id]
    {}
  }

  lemma RestartKeepsAuth(cfg: Config, s: System, e: Event)
    requires e.RestartEvent? && Enabled(s, e)
    requires Monotone(cfg.round) && AuthUnique(cfg, s.repo, s.clock) && Synced(cfg, s.repo, s.clock)
    ensures AuthUnique(cfg, Next(cfg, s, e).repo, Next(cfg, s, e).clock)
  {
    var after := Next(cfg, s, e).repo;
    forall id | Present(cfg, after, id, e.now)
      ensures Present(cfg, s.repo, id, s.clock) && after.cache[id].authID == s.repo.cache[id].authID
    {
      assert after == Reload(cfg, s.repo, e.now) && id in s.repo.table;
      var row := s.repo.table[id];
      assert row.disconnectedAt.Some? ==> after.cache[id].disconnectedAt == row.disconnectedAt;
      if Gone(cfg, row, s.clock) {
        GoneForGood(cfg, row, s.clock, e.now);
      }
    }
  }

  /** The mark of a disconnect reaches the cache but not the table. */
  predicate LosesMark(cfg: Config, e: Event) {
    cfg.keepLost.Some? && e.TerminateEvent? && !e.stores
  }

  lemma NextKeepsSync(cfg: Config, s: System, e: Event)
    requires Monotone(cfg.round) && Synced(cfg, s.repo, s.clock) && OpenAreCached(s) && !LosesMark(cfg, e)
    ensures Synced(cfg, Next(cfg, s, e).repo, Next(cfg, s, e).clock)
  {
    var n := Next(cfg, s, e);
    assert s.clock <= n.clock;
    forall id | id in n.repo.table
      ensures (id in n.repo.cache && RowOf(n.repo.cache[id]) == n.repo.table[id]) ||
              Gone(cfg, n.repo.table[id], n.clock)
    {
      if id in s.repo.table && Gone(cfg, s.repo.table[id], s.clock) {
        GoneForGood(cfg, s.repo.table[id], s.clock, n.clock);
      }
    }
  }

  /** No restart comes after a disconnect whose mark did not reach the table. */
  ghost predicate NoRestartAfterLoss(cfg: Config, events: seq<Event>) {
    forall i, j | 0 <= i < j < |events| :: !(LosesMark(cfg, events[i]) && events[j].RestartEvent?)
  }

  lemma {:induction false} RunSynced(cfg: Config, events: seq<Event>)
    requires Monotone(cfg.round) && forall i | 0 <= i < |events| :: !LosesMark(cfg, events[i])
    ensures Synced(cfg, Run(cfg, events).repo, Run(cfg, events).clock)
  {
    if events != [] {
      var front := events[..|events| - 1];
      RunSynced(cfg, front);
      ConnectedStay(cfg, front);
      NextKeepsSync(cfg, Run(cfg, front), events[|events| - 1]);
    }
  }

  /** With single-use credentials: over every run, at its end and at any later time, clients
      that are not obsolete and have the same credentials are one client. */
  lemma {:induction false} OneClientPerAuth(cfg: Config, events: seq<Event>, t: Time)
    requires !cfg.multiUse && Monotone(cfg.round)
    requires NoRestartAfterLoss(cfg, events) && Run(cfg, events).clock <= t
    ensures AuthUnique(cfg, Run(cfg, events).repo, t)
  {
    var s := Run(cfg, events);
    if events != [] {
      var front, e := events[..|events| - 1], events[|events| - 1];
      var before := Run(cfg, front);
      OneClientPerAuth(cfg, front, before.clock);
      ConnectedStay(cfg, front);
      if Enabled(before, e) {
        match e
        case StartEvent(_, _, _, _, _) => StartKeepsAuth(cfg, before, e);
        case TerminateEvent(_, _, _) => TerminateKeepsAuth(cfg, before, e);
        case RestartEvent(_) =>
          RunSynced(cfg, front);
          RestartKeepsAuth(cfg, before, e);
        case _ => RemovalKeepsAuth(cfg, before, e);
      }
    }
    AuthUniqueLater(cfg, s.repo, s.clock, t);
  }

  /** A disconnected client that is still kept can come back with its own credentials, whoever
      else tried them meanwhile. */
  lemma KeptClientCanReturn(cfg: Config, events: seq<Event>, id: string, now: Time)
    requires cfg.multiUse || (Monotone(cfg.round) && NoRestartAfterLoss(cfg, events))
    requires Run(cfg, events).clock <= now && Present(cfg, Run(cfg, events).repo, id, now)
    requires Run(cfg, events).repo.cache[id].disconnectedAt.Some?
    ensures var r := Run(cfg, events).repo;
            StartOutcomeOf(cfg, r, r.cache[id].authID, id, now, true, true) == Started
  {
    if !cfg.multiUse {
      OneClientPerAuth(cfg, events, now);
    }
  }

  lemma RunFrom(cfg: Config, front: seq<Event>, e: Event)
    ensures Run(cfg, front + [e]) == Next(cfg, Run(cfg, front), e)
  {
    assert (front + [e])[..|front|] == front;
  }

  /** A client starts, its disconnect is not stored, another one starts with its credentials as
      soon as it is obsolete, and the server restarts. */
  function LossRun(keep: nat, user: string, x: string, y: string): seq<Event> {
    [StartEvent(user, x, 0, true, true)] + [TerminateEvent(Conn(x, user, 1), 1, false)] +
    [StartEvent(user, y, keep + 2, true, true)] + [RestartEvent(keep + 2)]
  }

  lemma AfterLostMark(cfg: Config, s: System, user: string, x: string)
    requires cfg.keepLost.Some? && !cfg.multiUse
    requires s == Next(cfg, Next(cfg, EMPTY, StartEvent(user, x, 0, true, true)), TerminateEvent(Conn(x, user, 1), 1, false))
    ensures s.repo == Repo(map[x := Entry(user, 1, Some(1))], map[x := Row(user, None)])
    ensures s.nextConn == 2 && s.clock == 1
  {
    var s1 := Next(cfg, EMPTY, StartEvent(user, x, 0, true, true));
    assert s1 == System(Repo(map[x := Entry(user, 1, None)], map[x := Row(user, None)]), {Conn(x, user, 1)}, 2, 0);
  }

  /** Rows that say connected all come back at a restart. */
  lemma BothRevived(cfg: Config, r: Repo, user: string, x: string, y: string, now: Time)
    requires x != y && x in r.table && y in r.table && r.table[x] == r.table[y] == Row(user, None)
    ensures !AuthUnique(cfg, Reload(cfg, r, now), now)
  {
    var after := Reload(cfg, r, now);
    assert Present(cfg, after, x, now) && Present(cfg, after, y, now);
  }

  /** For any keeping time and any rounding, a lost mark and a restart bring two clients with the
      same credentials back. */
  lemma LostMarkThenRestart(cfg: Config, user: string, x: string, y: string)
    requires cfg.keepLost.Some? && !cfg.multiUse && x != y
    ensures var s := Run(cfg, LossRun(cfg.keepLost.value, user, x, y));
            !AuthUnique(cfg, s.repo, s.clock)
  {
    var later := cfg.keepLost.value + 2;
    var e0, e1 := StartEvent(user, x, 0, true, true), TerminateEvent(Conn(x, user, 1), 1, false);
    var e2, e3 := StartEvent(user, y, later, true, true), RestartEvent(later);
    RunFrom(cfg, [], e0);
    RunFrom(cfg, [e0], e1);
    RunFrom(cfg, [e0] + [e1], e2);
    RunFrom(cfg, [e0] + [e1] + [e2], e3);
    assert [] + [e0] == [e0];
    var s2 := Next(cfg, Next(cfg, EMPTY, e0), e1);
    AfterLostMark(cfg, s2, user, x);
    assert forall id | Present(cfg, s2.repo, id, later) :: false;
    var s3 := Next(cfg, s2, e2);
    assert s3.repo.table[x] == Row(user, None) && s3.repo.table[y] == Row(user, None);
    BothRevived(cfg, s3.repo, user, x, y, later);
  }

  /** The run is possible where marks are lost only if `losses`, and the server restarts only if
      `restarts`. */
  ghost predicate Possible(cfg: Config, losses: bool, restarts: bool, events: seq<Event>) {
    forall i | 0 <= i < |events| :: (LosesMark(cfg, events[i]) ==> losses) && (events[i].RestartEvent? ==> restarts)
  }

  lemma PossibleIsUnique(cfg: Config, losses: bool, restarts: bool, events: seq<Event>)
    requires !cfg.multiUse && Monotone(cfg.round) && Possible(cfg, losses, restarts, events)
    requires cfg.keepLost.None? || !losses || !restarts
    ensures AuthUnique(cfg, Run(cfg, events).repo, Run(cfg, events).clock)
  {
    OneClientPerAuth(cfg, events, Run(cfg, events).clock);
  }

  /** Single-use credentials are unique over every run exactly where lost clients are not kept,
      or marks are never lost, or the server never restarts. */
  lemma AuthUniqueExactlyWhen(cfg: Config, losses: bool, restarts: bool)
    requires !cfg.multiUse && Monotone(cfg.round)
    ensures (forall events | Possible(cfg, losses, restarts, events) ::
               AuthUnique(cfg, Run(cfg, events).repo, Run(cfg, events).clock)) <==>
            cfg.keepLost.None? || !losses || !restarts
  {
    if cfg.keepLost.None? || !losses || !restarts {
      forall events | Possible(cfg, losses, restarts, events)
        ensures AuthUnique(cfg, Run(cfg, events).repo, Run(cfg, events).clock)
      {
        PossibleIsUnique(cfg, losses, restarts, events);
      }
    } else {
      LostMarkThenRestart(cfg, "user", "x", "xx");
      assert Possible(cfg, losses, restarts, LossRun(cfg.keepLost.value, "user", "x", "xx"));
    }
  }

  // ---- The cache is backed by the table ----

  /** Every cached client has a row, and a disconnect time in the row is the cached one. */
  ghost predicate Backed(r: Repo) {
    forall id | id in r.cache ::
      id in r.table &&
      (r.table[id].disconnectedAt.Some? ==> r.table[id].disconnectedAt == r.cache[id].disconnectedAt)
  }

  /** What the table drops the cache drops too, at the same or a later time: rounding is monotone. */
  lemma ExpiredIsObsolete(cfg: Config, row: Row, now: Time, later: Time)
    requires cfg.keepLost.Some? && Monotone(cfg.round) && now <= later && Expired(cfg, row, now)
    ensures Obsolete(cfg.keepLost, row.disconnectedAt, later)
  {
    var d, limit := row.disconnectedAt.value, now - cfg.keepLost.value;
    assert d < limit || cfg.round(limit) <= cfg.round(d);
  }

  lemma CleanupKeepsBacked(cfg: Config, r: Repo, now: Time, later: Time)
    requires cfg.keepLost.Some? && Monotone(cfg.round) && now <= later && Backed(r)
    ensures Backed(Cleaned(cfg, r, now, later))
  {
    forall id | id in r.cache && Expired(cfg, r.table[id], now)
      ensures Obsolete(cfg.keepLost, r.cache[id].disconnectedAt, later)
    {
      ExpiredIsObsolete(cfg, r.table[id], now, later);
    }
  }

  /** The rounding tells no two times apart from the start of the clock on. */
  ghost predicate Flat(round: Time -> int) {
    forall s, t | 0 <= s <= t :: round(s) == round(t)
  }

  /** All recorded times are of the clock. */
  ghost predicate OnClock(s: System) {
    && 0 <= s.clock
    && (forall id | id in s.repo.table && s.repo.table[id].disconnectedAt.Some? :: 0 <= s.repo.table[id].disconnectedAt.value)
    && (forall id | id in s.repo.cache && s.repo.cache[id].disconnectedAt.Some? :: 0 <= s.repo.cache[id].disconnectedAt.value)
  }

  lemma NextOnClock(cfg: Config, s: System, e: Event)
    requires OnClock(s)
    ensures OnClock(Next(cfg, s, e))
  {}

  /** Lost clients are kept, or no row ever expires. */
  ghost predicate Keeps(cfg: Config) { cfg.keepLost.Some? || Flat(cfg.round) }

  lemma NextKeepsBacked(cfg: Config, s: System, e: Event)
    requires Keeps(cfg) && Monotone(cfg.round) && Backed(s.repo) && OpenAreCached(s) && OnClock(s)
    ensures Backed(Next(cfg, s, e).repo)
  {
    if Enabled(s, e) && e.CleanupEvent? {
      if cfg.keepLost.Some? {
        CleanupKeepsBacked(cfg, s.repo, e.now, e.later);
      } else {
        forall id | id in s.repo.table ensures !Expired(cfg, s.repo.table[id], e.now) {
          assert cfg.round(e.now - cfg.TableKeeps()) == cfg.round(0);
        }
      }
    }
  }

  /** Over every run, storage failures and restarts included, every cached client is in the
      table. */
  lemma {:induction false} CacheInTable(cfg: Config, events: seq<Event>)
    requires Keeps(cfg) && Monotone(cfg.round)
    ensures Backed(Run(cfg, events).repo) && OnClock(Run(cfg, events))
    ensures Run(cfg, events).repo.cache.Keys <= Run(cfg, events).repo.table.Keys
  {
    if events != [] {
      var front, e := events[..|events| - 1], events[|events| - 1];
      CacheInTable(cfg, front);
      ConnectedStay(cfg, front);
      NextKeepsBacked(cfg, Run(cfg, front), e);
      NextOnClock(cfg, Run(cfg, front), e);
    }
  }

  /** With lost clients not kept, a restart and a cleanup that the rounding tells apart leave
      every client cached and none in the table. */
  lemma NotKeptNotBacked(cfg: Config, user: string, x: string, s: Time, t: Time)
    requires cfg.keepLost.None? && 0 <= s < t && cfg.round(s) < cfg.round(t)
    ensures var r := Run(cfg, DropRun(user, x, s, t)).repo;
            x in r.cache && x !in r.table
  {
    var e0, e1, e2 := StartEvent(user, x, 0, true, true), RestartEvent(s), CleanupEvent(t, t, true);
    RunFrom(cfg, [], e0);
    RunFrom(cfg, [e0], e1);
    RunFrom(cfg, [e0] + [e1], e2);
    assert [] + [e0] == [e0];
    var s1 := Next(cfg, EMPTY, e0);
    assert s1.repo.table[x] == Row(user, None);
    var s2 := Next(cfg, s1, e1);
    assert s2.repo == Reload(cfg, s1.repo, s);
    assert s2.repo.cache[x].disconnectedAt == s2.repo.table[x].disconnectedAt == Some(s);
    var s3 := Next(cfg, s2, e2);
    assert s3.repo == Cleaned(cfg, s2.repo, t, t);
    assert Expired(cfg, s2.repo.table[x], t);
  }

  function DropRun(user: string, x: string, s: Time, t: Time): seq<Event> {
    [StartEvent(user, x, 0, true, true)] + [RestartEvent(s)] + [CleanupEvent(t, t, true)]
  }

  /** The cache stays within the table over every run exactly when lost clients are kept, or the
      rounding is constant on the times of the clock. */
  lemma CacheInTableExactlyWhen(cfg: Config)
    requires Monotone(cfg.round)
    ensures (forall events :: Run(cfg, events).repo.cache.Keys <= Run(cfg, events).repo.table.Keys) <==> Keeps(cfg)
  {
    if Keeps(cfg) {
      forall events ensures Run(cfg, events).repo.cache.Keys <= Run(cfg, events).repo.table.Keys {
        CacheInTable(cfg, events);
      }
    } else {
      var s, t :| 0 <= s <= t && cfg.round(s) != cfg.round(t);
      assert cfg.round(s) <= cfg.round(t);
      NotKeptNotBacked(cfg, "user", "x", s, t);
    }
  }
}
