/** What the operations of the client registry do and when, spelled out: how long a lost client is
    kept, and what each operation changes. */
module RegistryLaws {
  import opened Wrappers
  import opened RegistrySpec

  /** A cached client is there at `t` unless lost clients are kept for a time, it was disconnected,
      and that time is over. */
  predicate There(cfg: Config, r: Repo, id: string, t: Time) {
    id in r.cache &&
    (cfg.keepLost.Some? && r.cache[id].disconnectedAt.Some? ==> t <= r.cache[id].disconnectedAt.value + cfg.keepLost.value)
  }

  lemma PresentMeans(cfg: Config, r: Repo, id: string, t: Time)
    ensures Present(cfg, r, id, t) <==> There(cfg, r, id, t)
  {}

  // ---- How long a client is there ----

  /** While its connection is open a client is found at every time. */
  lemma ConnectedIsFound(cfg: Config, events: seq<Event>, c: Conn, u: Time)
    requires c in Run(cfg, events).open
    ensures Present(cfg, Run(cfg, events).repo, c.id, u)
  {
    ConnectedStay(cfg, events);
  }

  /** A client whose disconnect at `t` took effect is found from then on for exactly the keeping
      time, whether the mark was stored or not. */
  lemma KeptExactly(cfg: Config, events: seq<Event>, c: Conn, t: Time, stores: bool, u: Time)
    requires c in Run(cfg, events).open && Run(cfg, events).clock <= t <= u && cfg.keepLost.Some?
    ensures Present(cfg, Next(cfg, Run(cfg, events), TerminateEvent(c, t, stores)).repo, c.id, u) <==>
            u <= t + cfg.keepLost.value
  {
    ConnectedStay(cfg, events);
  }

  /** If lost clients are not kept it is gone at once, unless it could not be deleted; then it is
      found for ever. */
  lemma NotKept(cfg: Config, events: seq<Event>, c: Conn, t: Time, stores: bool, u: Time)
    requires c in Run(cfg, events).open && Run(cfg, events).clock <= t <= u && cfg.keepLost.None?
    ensures Present(cfg, Next(cfg, Run(cfg, events), TerminateEvent(c, t, stores)).repo, c.id, u) <==> !stores
  {
    ConnectedStay(cfg, events);
  }

  /** For the keeping time nobody else can start with its single-use credentials. */
  lemma CredentialsKept(cfg: Config, events: seq<Event>, c: Conn, t: Time, stores: bool, id: string, conn: nat, u: Time,
                        tunnelsStart: bool, saves: bool)
    requires c in Run(cfg, events).open && Run(cfg, events).clock <= t <= u && cfg.keepLost.Some?
    requires !cfg.multiUse && id != c.id && u <= t + cfg.keepLost.value
    ensures var r := Next(cfg, Run(cfg, events), TerminateEvent(c, t, stores)).repo;
            StartOutcomeOf(cfg, r, c.authID, id, u, tunnelsStart, saves) in {IDInUse, AuthInUse} &&
            StartClient(cfg, r, c.authID, id, conn, u, tunnelsStart, saves) == r
  {
    KeptExactly(cfg, events, c, t, stores, u);
    ConnectedStay(cfg, events);
    var r := Next(cfg, Run(cfg, events), TerminateEvent(c, t, stores)).repo;
    assert Present(cfg, r, c.id, u) && r.cache[c.id].authID == c.authID;
  }

  /** With single-use credentials, unless a restart follows a lost mark: of the clients that are still
      there at a time no two have the same credentials. */
  lemma OneClientThere(cfg: Config, events: seq<Event>, t: Time, a: string, b: string)
    requires !cfg.multiUse && Monotone(cfg.round) && NoRestartAfterLoss(cfg, events) && Run(cfg, events).clock <= t
    requires There(cfg, Run(cfg, events).repo, a, t) && There(cfg, Run(cfg, events).repo, b, t)
    requires Run(cfg, events).repo.cache[a].authID == Run(cfg, events).repo.cache[b].authID
    ensures a == b
  {
    OneClientPerAuth(cfg, events, t);
    assert Present(cfg, Run(cfg, events).repo, a, t) && Present(cfg, Run(cfg, events).repo, b, t);
  }

  // ---- What the operations do ----

  /** A client starts exactly if its tunnels do, it can be saved, no connected client has its
      identifier and, with single-use credentials, no other client that is still there has those. It
      is then filed and stored, under a connection of its own; otherwise nothing changes. */
  lemma StartsExactlyWhen(cfg: Config, s: System, authID: string, id: string, now: Time, tunnelsStart: bool, saves: bool)
    requires s.clock <= now
    ensures var n := Next(cfg, s, StartEvent(authID, id, now, tunnelsStart, saves));
            if && tunnelsStart && saves
               && (id in s.repo.cache ==> s.repo.cache[id].disconnectedAt.Some?)
               && (cfg.multiUse || forall k | There(cfg, s.repo, k, now) && s.repo.cache[k].authID == authID :: k == id)
            then
              && n.repo.cache == s.repo.cache[id := Entry(authID, s.nextConn, None)]
              && n.repo.table == s.repo.table[id := Row(authID, None)]
              && n.open == s.open + {Conn(id, authID, s.nextConn)} && n.nextConn > s.nextConn
            else n.repo == s.repo && n.open == s.open
  {
    forall k ensures Present(cfg, s.repo, k, now) <==> There(cfg, s.repo, k, now) {}
    assert AuthIDInUse(cfg, s.repo, authID, id, now) <==>
           !(forall k | There(cfg, s.repo, k, now) && s.repo.cache[k].authID == authID :: k == id);
  }

  /** For what a start is refused: for a connected client of that identifier first, then for
      credentials in use, then because a tunnel cannot be started, and last because the client cannot
      be saved. */
  lemma RefusedFor(cfg: Config, r: Repo, authID: string, id: string, now: Time, tunnelsStart: bool, saves: bool)
    ensures var outcome := StartOutcomeOf(cfg, r, authID, id, now, tunnelsStart, saves);
            var connected := id in r.cache && r.cache[id].disconnectedAt.None?;
            var used := exists k :: There(cfg, r, k, now) && r.cache[k].authID == authID && k != id;
            && (outcome == IDInUse <==> connected)
            && (outcome == AuthInUse <==> !connected && !cfg.multiUse && used)
            && (outcome == TunnelsFailed <==> !connected && (used ==> cfg.multiUse) && !tunnelsStart)
            && (outcome == NotSaved <==> !connected && (used ==> cfg.multiUse) && tunnelsStart && !saves)
  {
    forall k ensures Present(cfg, r, k, now) <==> There(cfg, r, k, now) {}
    assert AuthIDInUse(cfg, r, authID, id, now) <==>
           exists k :: There(cfg, r, k, now) && r.cache[k].authID == authID && k != id;
  }

  /** Saving a client again changes nothing in the cache, and in the table only its own row, which
      then says what the cache does; and only if the client is still there. */
  lemma TouchesExactly(cfg: Config, s: System, id: string, now: Time, saves: bool)
    requires s.clock <= now
    ensures var r, n := s.repo, Next(cfg, s, TouchEvent(id, now, saves)).repo;
            && n.cache == r.cache
            && n.table == if saves && There(cfg, r, id, now) then
                            r.table[id := Row(r.cache[id].authID, r.cache[id].disconnectedAt)]
                          else r.table
  {
    PresentMeans(cfg, s.repo, id, now);
  }

  /** A client is deleted exactly if it is there, disconnected, and can be deleted; then it is gone
      from cache and table, and nothing else changes. */
  lemma DeletesExactlyWhen(cfg: Config, s: System, id: string, now: Time, stores: bool)
    requires s.clock <= now
    ensures var n := Next(cfg, s, DeleteEvent(id, now, stores));
            n.repo ==
            if stores && id != "" && There(cfg, s.repo, id, now) && s.repo.cache[id].disconnectedAt.Some? then
              Repo(s.repo.cache - {id}, s.repo.table - {id})
            else s.repo
  {
    PresentMeans(cfg, s.repo, id, now);
  }

  /** A cleanup drops from the cache exactly the clients that are not there any more, and from the
      table exactly the rows whose time is over after rounding; or nothing, if it fails. */
  lemma CleansExactly(cfg: Config, s: System, now: Time, later: Time, stores: bool, id: string)
    requires s.clock <= now <= later
    ensures var r, n := s.repo, Next(cfg, s, CleanupEvent(now, later, stores)).repo;
            && (id in n.cache <==> id in r.cache && (There(cfg, r, id, later) || !stores))
            && (id in n.cache ==> n.cache[id] == r.cache[id])
            && (id in n.table <==>
                  id in r.table &&
                  !(stores && r.table[id].disconnectedAt.Some? &&
                    cfg.round(r.table[id].disconnectedAt.value) <
                    cfg.round(now - if cfg.keepLost.Some? then cfg.keepLost.value else 0)))
            && (id in n.table ==> n.table[id] == r.table[id])
  {}

  /** A restart brings back the rows whose time is not over, without a connection; who was connected
      counts as disconnected now, in the table too. */
  lemma RestartsExactly(cfg: Config, s: System, now: Time, id: string)
    requires s.clock <= now
    ensures var r, n := s.repo, Next(cfg, s, RestartEvent(now)).repo;
            && (id in n.table <==> id in r.table)
            && (id in n.cache <==>
                  id in r.table &&
                  (r.table[id].disconnectedAt.Some? ==>
                     cfg.round(now - if cfg.keepLost.Some? then cfg.keepLost.value else 0) <=
                     cfg.round(r.table[id].disconnectedAt.value)))
            && (id in r.table ==>
                  var since := if r.table[id].disconnectedAt.Some? then r.table[id].disconnectedAt else Some(now);
                  n.table[id] == Row(r.table[id].authID, since) &&
                  (id in n.cache ==> n.cache[id] == Entry(r.table[id].authID, 0, since)))
  {}
}
