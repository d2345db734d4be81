/** What a reconnecting client gets back: the part of StartClient (server/client_service.go) that
    matches its old tunnels, appends the ones left over, and starts the whole batch on a new
    client. */
module Reconnect {
  import opened Wrappers
  import opened Strings
  import opened Remotes
  import opened Reestablish
  import opened TunnelBatch
  import opened Collapse
  import P = Ports
  import T = Tunnels

  /** Settling a local end does not touch what a tunnel gives access to. */
  lemma ServedKeepsService(before: seq<Remote>, after: seq<Remote>, pool: set<int>, k: nat)
    requires k < |before| && k < |after| && Served(before, after, pool, k)
    ensures ServiceOf(after[k]) == ServiceOf(before[k])
  {}

  lemma {:induction false} BatchKeepsServices(before: seq<Remote>, after: seq<Remote>, pool: set<int>, n: nat, s: Service)
    requires n <= |before| && n <= |after| && AllServed(before, after, pool, n)
    ensures Count(after[..n], s) == Count(before[..n], s)
  {
    if n > 0 {
      BatchKeepsServices(before, after, pool, n - 1, s);
      ServedKeepsService(before, after, pool, n - 1);
      assert after[..n][..n - 1] == after[..n - 1] && before[..n][..n - 1] == before[..n - 1];
    }
  }

  lemma WholeBatchKeepsServices(before: seq<Remote>, after: seq<Remote>, pool: set<int>)
    requires Settlement(before, after, pool)
    ensures SameServices(after, before)
  {
    assert after[..|before|] == after && before[..|before|] == before;
    forall s ensures Count(after, s) == Count(before, s) {
      BatchKeepsServices(before, after, pool, |before|, s);
    }
  }

  lemma SameForBoth(x: seq<Remote>, a: seq<Remote>, b: seq<Remote>)
    requires SameServices(a, b)
    ensures SameServices(x, a) <==> SameServices(x, b)
  {}

  /** A new client's list gives what its batch asked for exactly when the settled entries print
      apart. */
  lemma SettledExactlyWhenApart(before: seq<Remote>, after: seq<Remote>, pool: set<int>)
    requires Settlement(before, after, pool)
    ensures SameServices(Listed(after), before) <==> DistinctStrings(after)
  {
    WholeBatchKeepsServices(before, after, pool);
    ListedExactlyWhenApart(after);
    SameForBoth(Listed(after), after, before);
  }

  /** Whatever is drawn, a new client whose batch succeeds has the services it asked for: this is
      sure exactly when its explicit remotes print apart and no open one may meet one of them. */
  lemma ServicesKeptExactlyWhen(before: seq<Remote>, pool: set<int>)
    requires AllWellFormed(before) && PortPool(pool)
    ensures (forall after | Settlement(before, after, pool) :: SameServices(Listed(after), before)) <==>
            SureApart(before, pool)
  {
    ApartExactlyWhen(before, pool);
    forall after | Settlement(before, after, pool)
      ensures SameServices(Listed(after), before) <==> DistinctStrings(after)
    {
      SettledExactlyWhenApart(before, after, pool);
    }
  }

  // ---- The batch of a reconnect ----

  lemma BatchWellFormed(olds: seq<Remote>, news: seq<Remote>, taken: set<nat>)
    requires AllWellFormed(olds) && AllWellFormed(news)
    ensures AllWellFormed(news + Leftovers(olds, taken, |olds|))
  {
    var from := LeftoversFrom(olds, taken, |olds|);
    forall k | 0 <= k < |from| ensures WellFormed(Leftovers(olds, taken, |olds|)[k]) {
      CopyWellFormed(Leftovers(olds, taken, |olds|)[k], olds[from[k]]);
    }
  }

  lemma CopyWellFormed(r: Remote, o: Remote)
    requires WellFormed(o) && CopyOf(r, o)
    ensures WellFormed(r)
  {}

  ghost predicate PrintsAs(r: Remote, olds: seq<Remote>, i: nat) {
    i < |olds| && r.String() == olds[i].String()
  }

  /** After a match, which old tunnels the entries of the batch stand for: different ones. */
  lemma Sources(olds: seq<Remote>, news: seq<Remote>, a: seq<nat>) returns (from: seq<nat>)
    requires Assignment(olds, news, a)
    ensures var back := Leftovers(olds, Range(a), |olds|);
            && |from| == |back|
            && (forall k | 0 <= k < |back| && back[k].IsLocalSpecified() :: PrintsAs(back[k], olds, from[k]))
            && (forall h, k | 0 <= h < k < |a + from| :: (a + from)[h] != (a + from)[k])
  {
    from := LeftoversFrom(olds, Range(a), |olds|);
    forall h, k | 0 <= h < |a| && 0 <= k < |from| ensures a[h] != from[k] {
      assert a[h] in Range(a);
    }
  }

  lemma NewPrintsAs(olds: seq<Remote>, news: seq<Remote>, a: seq<nat>, k: nat)
    requires Assignment(olds, news, a) && k < |news| && news[k].IsLocalSpecified()
    ensures PrintsAs(news[k], olds, a[k])
  {
    assert Suiting(olds, news)(k, a[k]);
  }

  /** After a match the explicit remotes of the batch print as different old ones do. */
  lemma MatchedExplicitApart(olds: seq<Remote>, news: seq<Remote>, a: seq<nat>)
    requires DistinctStrings(olds) && Assignment(olds, news, a)
    ensures ExplicitApart(news + Leftovers(olds, Range(a), |olds|))
  {
    var all := news + Leftovers(olds, Range(a), |olds|);
    var from := Sources(olds, news, a);
    var source := a + from;
    forall k | 0 <= k < |all| && all[k].IsLocalSpecified() ensures PrintsAs(all[k], olds, source[k]) {
      if k < |news| {
        NewPrintsAs(olds, news, a, k);
      }
    }
    ApartBySource(olds, all, source);
  }

  lemma ApartBySource(olds: seq<Remote>, all: seq<Remote>, source: seq<nat>)
    requires DistinctStrings(olds) && |source| == |all|
    requires forall k | 0 <= k < |all| && all[k].IsLocalSpecified() :: PrintsAs(all[k], olds, source[k])
    requires forall h, k | 0 <= h < k < |source| :: source[h] != source[k]
    ensures ExplicitApart(all)
  {
    forall h, k | 0 <= h < k < |all| && all[h].IsLocalSpecified() && all[k].IsLocalSpecified()
      ensures all[h].String() != all[k].String()
    {
      assert PrintsAs(all[h], olds, source[h]) && PrintsAs(all[k], olds, source[k]);
      var i, j := source[h], source[k];
      assert i < j || j < i;
    }
  }

  /** The remotes to start: the new ones, and after a successful match the old ones left over. */
  method Requested(olds: seq<Remote>, news: seq<Remote>) returns (remotes: seq<Remote>, matched: bool)
    requires DistinctStrings(olds) && AllWellFormed(olds) && AllWellFormed(news)
    ensures matched <==> exists a :: Assignment(olds, news, a)
    ensures !matched ==> remotes == news
    ensures matched ==> SameServices(remotes, olds) && |remotes| == |olds| && ExplicitApart(remotes)
    ensures AllWellFormed(remotes)
  {
    DistinctIsTidy(olds);
    var outcome; ghost var a, from;
    outcome, a, from := GetTunnelsToReestablish(olds, news);
    matched := outcome.Remaining?;
    if outcome.Mismatch? {
      return news, matched;
    }
    remotes := news + outcome.remotes;
    forall s ensures Count(remotes, s) == Count(olds, s) {
      ServicesConserved(olds, news, a, s);
    }
    ServicesConserved(olds, news, a, ("", None));
    BatchWellFormed(olds, news, Range(a));
    MatchedExplicitApart(olds, news, a);
  }

  /** An open remote may draw the port of an explicit one before it in the batch, for the same
      service and on all interfaces. */
  ghost predicate SomeMayMeet(batch: seq<Remote>, pool: set<int>) {
    exists h: nat, k: nat :: MayMeet(batch, pool, h, k)
  }

  /** After a match, whatever is drawn, the new list gives exactly the services of the old one: this
      is sure exactly when no open remote of the batch may meet an explicit one. */
  lemma ReconnectKeepsExactlyWhen(olds: seq<Remote>, news: seq<Remote>, a: seq<nat>, pool: set<int>)
    requires DistinctStrings(olds) && AllWellFormed(olds) && AllWellFormed(news) && Assignment(olds, news, a)
    requires PortPool(pool)
    ensures var batch := news + Leftovers(olds, Range(a), |olds|);
            (forall after | Settlement(batch, after, pool) :: SameServices(Listed(after), olds)) <==>
            !SomeMayMeet(batch, pool)
  {
    var batch := news + Leftovers(olds, Range(a), |olds|);
    BatchWellFormed(olds, news, Range(a));
    MatchedExplicitApart(olds, news, a);
    forall s ensures Count(batch, s) == Count(olds, s) {
      ServicesConserved(olds, news, a, s);
    }
    ServicesKeptExactlyWhen(batch, pool);
    forall after | Settlement(batch, after, pool)
      ensures SameServices(Listed(after), batch) <==> SameServices(Listed(after), olds)
    {
      SameForBoth(Listed(after), batch, olds);
    }
  }

  ghost predicate StartsWellFormed(history: seq<T.Event>) {
    forall i | 0 <= i < |history| && history[i].Start? :: WellFormed(history[i].remote)
  }

  lemma OldRemotes(history: seq<T.Event>)
    requires StartsWellFormed(history)
    ensures var olds := T.RemotesOf(T.Run(T.FRESH, history).tunnels);
            DistinctStrings(olds) && AllWellFormed(olds)
  {
    T.OldTunnelsPrintApart(history);
    T.RunWellFormed(history);
  }

  /** `history` is what happened to the old tunnels; `client` is new. On success `settled` are the
      remotes of `batch` as started. After a match the new list gives exactly the services of the
      old one, each as often, if and only if the settled remotes print apart; which is sure if no
      open remote of the batch may meet an explicit one. */
  method StartTunnels(distributor: P.PortDistributor, client: T.Client, oldTunnels: seq<T.Tunnel>, ghost history: seq<T.Event>,
                      news: seq<Remote>, busy: Option<set<int>>, validACL: string -> bool, canListen: nat -> bool)
    returns (res: Result<seq<T.Tunnel>, BatchError>, settled: seq<Remote>, matched: bool, ghost batch: seq<Remote>)
    requires client.Now() == T.FRESH
    requires oldTunnels == T.Run(T.FRESH, history).tunnels && StartsWellFormed(history) && AllWellFormed(news)
    requires forall p | p in distributor.allowedPorts :: 0 <= p <= P.MAX_PORT
    modifies distributor, client
    ensures T.Valid(client.Now())
    ensures matched <==> exists a :: Assignment(T.RemotesOf(oldTunnels), news, a)
    ensures if matched then SameServices(batch, T.RemotesOf(oldTunnels)) && |batch| == |oldTunnels| else batch == news
    ensures res.Success? ==>
              && |res.value| == |settled| && AllStarted(res.value, settled, client.tunnels, |settled|)
              && (SameServices(T.RemotesOf(client.tunnels), if matched then T.RemotesOf(oldTunnels) else news) <==>
                  DistinctStrings(settled))
              && busy.Some?
              && (matched && !SomeMayMeet(batch, distributor.allowedPorts - busy.value) ==> DistinctStrings(settled))
    ensures res.Failure? ==>
              || (busy.None? && res.error == BusyPortsUnknown)
              || (busy.Some? && exists k: nat ::
                   RefusedAt(res.error, T.FRESH, batch, settled, distributor.allowedPorts,
                             distributor.allowedPorts - busy.value, validACL, canListen(k), k))
  {
    OldRemotes(history);
    var olds := T.GetRemotes(oldTunnels);
    var remotes;
    remotes, matched := Requested(olds, news);
    batch := remotes;
    var entries := new Remote[|remotes|](i requires 0 <= i < |remotes| => remotes[i]);
    assert entries[..] == remotes;
    var bound := seq(|remotes|, k requires 0 <= k < |remotes| => canListen(k));
    res := StartClientTunnels(distributor, client, entries, busy, validACL, bound);
    settled := entries[..];
    if res.Success? {
      ghost var pool := distributor.allowedPorts - busy.value;
      assert Settlement(batch, settled, pool);
      SettledExactlyWhenApart(batch, settled, pool);
      if matched {
        SameForBoth(Listed(settled), batch, olds);
      }
      if matched && !SomeMayMeet(batch, pool) {
        SureStaysApart(batch, settled, pool);
      }
    }
  }

  // ---- A reconnect that loses a tunnel ----

  /** `r` on port `p` of all interfaces, explicitly. */
  function Fixed(r: Remote, p: nat): Remote { Assigned(r, p).(localPortRandom := false) }

  lemma TwoOldTunnels(r: Remote, p: nat, q: nat)
    requires WellFormed(r) && p != q && p <= P.MAX_PORT && q <= P.MAX_PORT
    ensures DistinctStrings([Fixed(r, p), Assigned(r, q)])
    ensures Listed([Fixed(r, p), Assigned(r, q)]) == [Fixed(r, p), Assigned(r, q)]
  {
    AssignedWellFormed(r, p);
    MeetExactlyWhen(Fixed(r, p), r, q);
    AssignedPort(r, p);
    AssignedPort(r, q);
    ApartAllListed([Fixed(r, p), Assigned(r, q)]);
  }

  lemma OneTakenBack(r: Remote, p: nat, q: nat)
    ensures var olds, news := [Fixed(r, p), Assigned(r, q)], [Fixed(r, p)];
            Assignment(olds, news, [0]) && Leftovers(olds, Range([0]), 2) == [Blank(Assigned(r, q))]
  {
    var olds, news := [Fixed(r, p), Assigned(r, q)], [Fixed(r, p)];
    assert Suiting(olds, news)(0, 0);
    var a: seq<nat> := [0];
    assert a[0] == 0 && 0 in Range(a) && 1 !in Range(a);
    assert Leftovers(olds, Range(a), 0) == [] && Leftovers(olds, Range(a), 1) == [];
  }

  lemma FixedThenDrawn(r: Remote, p: nat, pool: set<int>)
    requires WellFormed(r) && p <= P.MAX_PORT && p in pool
    ensures var open := r.(localHost := "", localPort := "");
            && Settlement([Fixed(r, p), open], [Fixed(r, p), Assigned(open, p)], pool)
            && Assigned(open, p).String() == Fixed(r, p).String()
            && ServiceOf(Assigned(open, p)) == ServiceOf(Fixed(r, p))
  {
    var open := r.(localHost := "", localPort := "");
    var before, after := [Fixed(r, p), open], [Fixed(r, p), Assigned(open, p)];
    AssignedPort(r, p);
    AtoiItoa(p);
    assert Drawn(before, after, 0) == {} && Drawn(before, after, 1) == {};
    assert Served(before, after, pool, 0);
    assert p in pool - Drawn(before, after, 1) && after[1] == Assigned(before[1], p);
    assert Served(before, after, pool, 1);
  }

  /** Of two entries that print alike only the first is listed. */
  lemma TwoAlike(a: Remote, b: Remote)
    requires a.String() == b.String()
    ensures Listed([a, b]) == [a]
  {
    ListedNone();
    ListedOneMore([], a);
    assert [] + [a] == [a] && [a] + [b] == [a, b];
    ListedOneMore([a], b);
    PrintedAppend([], a, b.String());
  }

  /** For any service, any port `p` of the pool and any other port `q`: a client that has the
      service on `p`, explicitly, and on a random `q`, and asks for the first when it reconnects.
      Its list shows both, the match succeeds, the second is appended and may draw `p`; then
      starting it returns the first, nothing is bound, and one tunnel is left of two. */
  lemma ReconnectMayLoseTunnel(r: Remote, p: nat, q: nat, pool: set<int>)
    requires WellFormed(r) && p != q && q <= P.MAX_PORT && p <= P.MAX_PORT && p in pool
    ensures var olds, news := [Fixed(r, p), Assigned(r, q)], [Fixed(r, p)];
            var batch := news + Leftovers(olds, Range([0]), 2);
            && olds == Listed(olds) && Assignment(olds, news, [0])
            && exists after :: Settlement(batch, after, pool) && |Listed(after)| == 1 && !SameServices(Listed(after), olds)
  {
    var open := r.(localHost := "", localPort := "", localPortRandom := true);
    var olds, news := [Fixed(r, p), Assigned(r, q)], [Fixed(r, p)];
    TwoOldTunnels(r, p, q);
    OneTakenBack(r, p, q);
    assert Blank(Assigned(r, q)) == open;
    assert Fixed(open, p) == Fixed(r, p) && open.(localHost := "", localPort := "") == open;
    FixedThenDrawn(open, p, pool);
    var after := [Fixed(r, p), Assigned(open, p)];
    TwoAlike(Fixed(r, p), Assigned(open, p));
    ListedLess(r, p, q);
    assert Settlement(news + Leftovers(olds, Range([0]), 2), after, pool);
  }

  lemma ListedLess(r: Remote, p: nat, q: nat)
    ensures !SameServices([Fixed(r, p)], [Fixed(r, p), Assigned(r, q)])
  {
    var a, b := Fixed(r, p), Assigned(r, q);
    CountOneMore([], a, ServiceOf(a));
    CountOneMore([a], b, ServiceOf(a));
    assert [] + [a] == [a] && [a] + [b] == [a, b];
  }
}
