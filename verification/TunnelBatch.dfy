/** Starting a batch of tunnels for a client (startClientTunnels in server/client_service.go). */
module TunnelBatch {
  import opened Wrappers
  import opened Strings
  import opened Remotes
  import opened Ports
  import T = Tunnels
  import Sets

  datatype BatchError = BusyPortsUnknown | NoPortsAvailable | InvalidLocalPort | PortNotAllowed | PortBusy |
                        InvalidACL | CannotListen

  /** A remote that was given a random port. */
  function Assigned(r: Remote, port: nat): Remote {
    r.(localPort := Itoa(port), localHost := ZERO_HOST, localPortRandom := true)
  }

  /** The local port of a remote, as a number; -1 if it is none. */
  function PortOf(r: Remote): int {
    var p := Atoi(r.localPort);
    if p.Some? then p.value else -1
  }

  lemma AssignedPort(r: Remote, port: nat)
    requires port <= MAX_PORT
    ensures PortOf(Assigned(r, port)) == port && Assigned(r, port).IsLocalSpecified()
  {
    AtoiItoa(port);
  }

  /** The random ports among the first `n` remotes of a batch. */
  ghost function Drawn(before: seq<Remote>, after: seq<Remote>, n: nat): set<int>
    requires n <= |before| && n <= |after|
  {
    set k | 0 <= k < n && !before[k].IsLocalSpecified() :: PortOf(after[k])
  }

  /** Entry `k` of the batch was served: an explicit port was allowed, not busy and not drawn
      before; a missing one was drawn from what was left. Nothing else about it changed. */
  ghost predicate Served(before: seq<Remote>, after: seq<Remote>, pool: set<int>, k: nat)
    requires k < |before| && k < |after|
  {
    var free := pool - Drawn(before, after, k);
    if before[k].IsLocalSpecified() then
      after[k] == before[k] && Atoi(before[k].localPort).Some? && PortOf(before[k]) in free
    else
      exists p: nat :: p in free && after[k] == Assigned(before[k], p)
  }

  ghost predicate AllServed(before: seq<Remote>, after: seq<Remote>, pool: set<int>, n: nat)
    requires n <= |before| && n <= |after|
  {
    forall k: nat | k < n :: Served(before, after, pool, k)
  }

  /** How the local end of one remote is settled against the pool, and what is left of the pool. */
  ghost predicate Settles(r: Remote, settled: Remote, pool: set<int>, left: set<int>) {
    if r.IsLocalSpecified() then
      left == pool && settled == r && Atoi(r.localPort).Some? && PortOf(r) in pool
    else
      exists p: nat :: p in pool && left == pool - {p} && settled == Assigned(r, p)
  }

  /** A remote's local end can be settled. */
  ghost predicate Fits(r: Remote, free: set<int>) {
    if r.IsLocalSpecified() then Atoi(r.localPort).Some? && PortOf(r) in free else free != {}
  }

  /** Why a remote's local end cannot be settled, given the allowed ports and the free ones. */
  ghost predicate NoLocal(e: BatchError, r: Remote, allowed: set<int>, free: set<int>) {
    match e
    case NoPortsAvailable => !r.IsLocalSpecified() && free == {}
    case InvalidLocalPort => r.IsLocalSpecified() && Atoi(r.localPort).None?
    case PortNotAllowed => r.IsLocalSpecified() && Atoi(r.localPort).Some? && PortOf(r) !in allowed
    case PortBusy => r.IsLocalSpecified() && Atoi(r.localPort).Some? && PortOf(r) in allowed - free
    case _ => false
  }

  /** Why a remote is not ready to be started: also if its access list does not parse. */
  ghost predicate Unfit(e: BatchError, r: Remote, allowed: set<int>, free: set<int>, validACL: string -> bool) {
    NoLocal(e, r, allowed, free) || (e == InvalidACL && Fits(r, free) && r.acl.Some? && !validACL(r.acl.value))
  }

  /** Why one entry is refused: also if no tunnel prints like it and its port cannot be bound. */
  ghost predicate Refused(e: BatchError, r: Remote, settled: Remote, allowed: set<int>, free: set<int>,
                          list: seq<T.Tunnel>, validACL: string -> bool, canListen: bool) {
    Unfit(e, r, allowed, free, validACL) ||
    (e == CannotListen && Fits(r, free) && (r.acl.Some? ==> validACL(r.acl.value)) &&
     !canListen && !T.Listed(list, settled.String()))
  }

  /** Entry `k` is the first of a batch that is refused: those before it were served. */
  ghost predicate RefusedAt(e: BatchError, was: T.State, before: seq<Remote>, after: seq<Remote>, allowed: set<int>,
                            pool: set<int>, validACL: string -> bool, canListen: bool, k: nat) {
    && k < |before| && k < |after|
    && AllServed(before, after, pool, k)
    && Refused(e, before[k], after[k], allowed, pool - Drawn(before, after, k),
               T.Run(was, T.Starts(after[..k])).tunnels, validACL, canListen)
  }

  /** None of the first `n` entries is refused. */
  ghost predicate NoneRefused(was: T.State, before: seq<Remote>, after: seq<Remote>, allowed: set<int>,
                              pool: set<int>, validACL: string -> bool, canListen: seq<bool>, n: nat) {
    forall e, k: nat | k < n && k < |canListen| ::
      !RefusedAt(e, was, before, after, allowed, pool, validACL, canListen[k], k)
  }

  /** checkLocalPort. */
  method CheckLocalPort(distributor: PortDistributor, text: string) returns (error: Option<BatchError>)
    requires distributor.portsPool.Some?
    ensures error.None? <==>
              Atoi(text).Some? && Atoi(text).value in distributor.allowedPorts &&
              Atoi(text).value in distributor.portsPool.value
    ensures error == Some(InvalidLocalPort) <==> Atoi(text).None?
    ensures error == Some(PortNotAllowed) <==> Atoi(text).Some? && Atoi(text).value !in distributor.allowedPorts
    ensures error.Some? ==> error.value in {InvalidLocalPort, PortNotAllowed, PortBusy}
  {
    var port := Atoi(text);
    if port.None? {
      return Some(InvalidLocalPort);
    }
    if !distributor.IsPortAllowed(port.value) {
      return Some(PortNotAllowed);
    }
    if distributor.IsPortBusy(port.value) {
      return Some(PortBusy);
    }
    error := None;
  }

  /** Gives a remote its local end, if it has none, or checks the one it has. */
  method SettleLocal(distributor: PortDistributor, r: Remote) returns (res: Result<Remote, BatchError>)
    requires distributor.portsPool.Some? && distributor.portsPool.value <= distributor.allowedPorts
    requires forall p | p in distributor.allowedPorts :: 0 <= p <= MAX_PORT
    modifies distributor
    ensures distributor.portsPool.Some?
    ensures var pool, left := old(distributor.portsPool.value), distributor.portsPool.value;
            && (res.Success? ==> Settles(r, res.value, pool, left))
            && (res.Failure? ==> left == pool)
            && (res.Failure? <==> if r.IsLocalSpecified() then Atoi(r.localPort).None? || PortOf(r) !in pool
                                  else pool == {})
            && (res.Success? <==> Fits(r, pool))
            && (forall e :: res == Failure(e) <==> NoLocal(e, r, distributor.allowedPorts, pool))
    ensures res.Success? && r.IsLocalSpecified() ==> res.value == r
    ensures res.Success? && !r.IsLocalSpecified() ==>
              exists p: nat :: p in old(distributor.portsPool.value) && p !in distributor.portsPool.value &&
                res.value == r.(localHost := "0.0.0.0", localPort := Itoa(p), localPortRandom := true)
  {
    if !r.IsLocalSpecified() {
      var port := distributor.GetRandomPort(None);
      if port.None? {
        return Failure(NoPortsAvailable);
      }
      return Success(r.(localPort := Itoa(port.value), localHost := "0.0.0.0", localPortRandom := true));
    } else {
      var error := CheckLocalPort(distributor, r.localPort);
      if error.Some? {
        return Failure(error.value);
      }
      return Success(r);
    }
  }

  /** Settles a remote's local end and checks its access list. */
  method Prepare(distributor: PortDistributor, r: Remote, validACL: string -> bool)
    returns (settled: Remote, error: Option<BatchError>)
    requires distributor.portsPool.Some? && distributor.portsPool.value <= distributor.allowedPorts
    requires forall p | p in distributor.allowedPorts :: 0 <= p <= MAX_PORT
    modifies distributor
    ensures var pool := old(distributor.portsPool.value);
            && distributor.portsPool.Some?
            && (error.None? ==> Settles(r, settled, pool, distributor.portsPool.value))
            && (error.None? <==> Fits(r, pool) && (r.acl.Some? ==> validACL(r.acl.value)))
            && (forall e :: error == Some(e) <==> Unfit(e, r, distributor.allowedPorts, pool, validACL))
  {
    settled := r;
    var local := SettleLocal(distributor, r);
    if local.Failure? {
      return settled, Some(local.error);
    }
    settled := local.value;
    if settled.acl.Some? && !validACL(settled.acl.value) {
      return settled, Some(InvalidACL);
    }
    error := None;
  }

  /** One entry of a batch: settle its local end, check its access list, start the tunnel. */
  method StartOne(distributor: PortDistributor, client: T.Client, r: Remote,
                  validACL: string -> bool, canListen: bool)
    returns (settled: Remote, res: Result<T.Tunnel, BatchError>)
    requires distributor.portsPool.Some? && distributor.portsPool.value <= distributor.allowedPorts
    requires forall p | p in distributor.allowedPorts :: 0 <= p <= MAX_PORT
    requires T.Valid(client.Now())
    modifies distributor, client
    ensures T.Valid(client.Now()) && old(client.tunnels) <= client.tunnels
    ensures res.Success? ==>
              distributor.portsPool.Some? &&
              Settles(r, settled, old(distributor.portsPool.value), distributor.portsPool.value)
    ensures res.Success? ==> res.value in client.tunnels && res.value.remote.String() == settled.String()
    ensures res.Success? ==> client.Now() == T.Apply(old(client.Now()), T.Start(settled, true))
    ensures res.Success? <==>
              && (if r.localHost != "" && r.localPort != "" then
                    Atoi(r.localPort).Some? && Atoi(r.localPort).value in old(distributor.portsPool.value)
                  else old(distributor.portsPool.value) != {})
              && (r.acl.Some? ==> validACL(r.acl.value))
              && (canListen || exists t :: t in old(client.tunnels) && t.remote.String() == settled.String())
    ensures res.Failure? ==> client.tunnels == old(client.tunnels)
    ensures forall e :: res == Failure(e) <==>
              Refused(e, r, settled, distributor.allowedPorts, old(distributor.portsPool.value),
                      old(client.tunnels), validACL, canListen)
  {
    var error;
    settled, error := Prepare(distributor, r, validACL);
    if error.Some? {
      return settled, Failure(error.value);
    }
    T.StartEffect(client.Now(), settled, canListen);
    var t := client.StartTunnel(settled, canListen);
    if t.None? {
      return settled, Failure(CannotListen);
    }
    return settled, Success(t.value);
  }

  /** What holds when the first `i` entries of a batch are done: `left` is left of the pool, `ts`
      are the tunnels, and the client went from `was` to `state`. */
  ghost predicate SoFar(was: T.State, before: seq<Remote>, after: seq<Remote>, pool: set<int>, left: set<int>,
                        ts: seq<T.Tunnel>, state: T.State, i: nat)
  {
    && i <= |before| == |after|
    && AllServed(before, after, pool, i)
    && left == pool - Drawn(before, after, i)
    && |ts| == i && AllStarted(ts, after, state.tunnels, i)
    && state == T.Run(was, T.Starts(after[..i]))
  }

  lemma NothingSoFar(was: T.State, before: seq<Remote>, pool: set<int>)
    ensures SoFar(was, before, before, pool, pool, [], was, 0)
  {
    NothingDrawn(before, before);
    assert T.Starts(before[..0]) == [];
  }

  lemma AllDone(was: T.State, before: seq<Remote>, after: seq<Remote>, pool: set<int>, left: set<int>,
                ts: seq<T.Tunnel>, state: T.State)
    requires SoFar(was, before, after, pool, left, ts, state, |before|)
    ensures |after| == |before| == |ts| && AllServed(before, after, pool, |before|)
    ensures left == pool - Drawn(before, after, |before|)
    ensures AllStarted(ts, after, state.tunnels, |before|)
    ensures state == T.Run(was, T.Starts(after))
  {
    assert after[..|before|] == after;
  }

  /** Whether an entry was refused does not depend on those after it. */
  lemma RefusedLocal(e: BatchError, was: T.State, before: seq<Remote>, seen: seq<Remote>, after: seq<Remote>, allowed: set<int>,
                     pool: set<int>, validACL: string -> bool, canListen: bool, k: nat)
    requires k < |before| == |seen| == |after| && after[..k + 1] == seen[..k + 1]
    ensures RefusedAt(e, was, before, after, allowed, pool, validACL, canListen, k) <==>
            RefusedAt(e, was, before, seen, allowed, pool, validACL, canListen, k)
  {
    var both := after[..k + 1];
    assert forall h: nat | h <= k :: after[h] == both[h] && seen[h] == both[h];
    assert after[..k] == both[..k] && seen[..k] == both[..k];
    forall h: nat | h <= k ensures Drawn(before, after, h) == Drawn(before, seen, h) {
      DrawnLocal(before, seen, after, h);
    }
    assert forall h: nat | h < k :: Served(before, after, pool, h) <==> Served(before, seen, pool, h);
  }

  lemma OneMoreAccepted(was: T.State, before: seq<Remote>, seen: seq<Remote>, after: seq<Remote>, allowed: set<int>,
                        pool: set<int>, validACL: string -> bool, canListen: seq<bool>, i: nat)
    requires i < |before| == |seen| == |after| == |canListen| && after == seen[i := after[i]]
    requires NoneRefused(was, before, seen, allowed, pool, validACL, canListen, i)
    requires forall e :: !RefusedAt(e, was, before, after, allowed, pool, validACL, canListen[i], i)
    ensures NoneRefused(was, before, after, allowed, pool, validACL, canListen, i + 1)
  {
    forall e, k: nat | k < i ensures !RefusedAt(e, was, before, after, allowed, pool, validACL, canListen[k], k) {
      assert after[..k + 1] == seen[..k + 1];
      RefusedLocal(e, was, before, seen, after, allowed, pool, validACL, canListen[k], k);
    }
  }

  /** How the outcome of one entry shows in the batch. */
  lemma RefusedHere(e: BatchError, was: T.State, before: seq<Remote>, seen: seq<Remote>, settled: Remote, allowed: set<int>,
                    pool: set<int>, left: set<int>, ts: seq<T.Tunnel>, state: T.State,
                    validACL: string -> bool, canListen: bool, i: nat)
    requires i < |before| && SoFar(was, before, seen, pool, left, ts, state, i)
    ensures RefusedAt(e, was, before, seen[i := settled], allowed, pool, validACL, canListen, i) <==>
            Refused(e, before[i], settled, allowed, left, state.tunnels, validACL, canListen)
  {
    var after := seen[i := settled];
    assert after[..i] == seen[..i];
    forall h: nat | h <= i ensures Drawn(before, after, h) == Drawn(before, seen, h) {
      DrawnLocal(before, seen, after, h);
    }
    assert forall h: nat | h < i :: Served(before, seen, pool, h) ==> Served(before, after, pool, h);
  }

  lemma OneFurther(was: T.State, before: seq<Remote>, seen: seq<Remote>, settled: Remote, pool: set<int>, left: set<int>,
                   rest: set<int>, ts: seq<T.Tunnel>, t: T.Tunnel, state: T.State, next: T.State, i: nat)
    requires i < |before| && SoFar(was, before, seen, pool, left, ts, state, i)
    requires forall p | p in pool :: 0 <= p <= MAX_PORT
    requires Settles(before[i], settled, left, rest)
    requires state.tunnels <= next.tunnels && next == T.Apply(state, T.Start(settled, true))
    requires t in next.tunnels && t.remote.String() == settled.String()
    ensures SoFar(was, before, seen[i := settled], pool, rest, ts + [t], next, i + 1)
  {
    var after := seen[i := settled];
    Settled(before, seen, after, pool, rest, i);
    StartedStep(ts, t, seen, after, state.tunnels, next.tunnels, i);
    assert after[..i + 1] == seen[..i] + [settled];
    T.StartsOneMore(was, seen[..i], settled);
  }

  /** Entry `i` of a batch, filled in where it stands. */
  method StartEntry(distributor: PortDistributor, client: T.Client, remotes: array<Remote>, i: nat,
                    validACL: string -> bool, canListen: seq<bool>, ts: seq<T.Tunnel>,
                    ghost was: T.State, ghost before: seq<Remote>, ghost pool: set<int>)
    returns (res: Result<T.Tunnel, BatchError>)
    requires i < remotes.Length == |canListen| && distributor.portsPool.Some?
    requires pool <= distributor.allowedPorts && forall p | p in distributor.allowedPorts :: 0 <= p <= MAX_PORT
    requires T.Valid(client.Now())
    requires SoFar(was, before, remotes[..], pool, distributor.portsPool.value, ts, client.Now(), i)
    requires NoneRefused(was, before, remotes[..], distributor.allowedPorts, pool, validACL, canListen, i)
    requires remotes[i..] == before[i..]
    modifies distributor, client, remotes
    ensures T.Valid(client.Now()) && old(client.tunnels) <= client.tunnels
    ensures remotes[i + 1..] == before[i + 1..]
    ensures res.Success? ==>
              distributor.portsPool.Some? &&
              SoFar(was, before, remotes[..], pool, distributor.portsPool.value, ts + [res.value], client.Now(), i + 1)
    ensures res.Success? ==>
              NoneRefused(was, before, remotes[..], distributor.allowedPorts, pool, validACL, canListen, i + 1)
    ensures res.Failure? ==>
              && RefusedAt(res.error, was, before, remotes[..], distributor.allowedPorts, pool, validACL, canListen[i], i)
              && client.tunnels == T.Run(was, T.Starts(remotes[..i])).tunnels
  {
    ghost var seen, state, left := remotes[..], client.Now(), distributor.portsPool.value;
    assert remotes[i] == before[i];
    var settled;
    settled, res := StartOne(distributor, client, remotes[i], validACL, canListen[i]);
    remotes[i] := settled;
    assert remotes[..] == seen[i := settled] && remotes[..i] == seen[..i];
    forall e ensures res == Failure(e) <==>
                     RefusedAt(e, was, before, remotes[..], distributor.allowedPorts, pool, validACL, canListen[i], i) {
      RefusedHere(e, was, before, seen, settled, distributor.allowedPorts, pool, left, ts, state, validACL, canListen[i], i);
    }
    if res.Success? {
      OneFurther(was, before, seen, settled, pool, left, distributor.portsPool.value, ts, res.value, state, client.Now(), i);
      OneMoreAccepted(was, before, seen, remotes[..], distributor.allowedPorts, pool, validACL, canListen, i);
    }
  }

  /** One batch. `busy` is the operating system's list of busy ports, `validACL` says which
      access lists parse, and `canListen[k]` whether the port of entry `k` can be bound. The
      remotes are filled in where they stand. A failed batch keeps the tunnels it started. */
  method StartClientTunnels(distributor: PortDistributor, client: T.Client, remotes: array<Remote>,
                            busy: Option<set<int>>, validACL: string -> bool, canListen: seq<bool>)
    returns (res: Result<seq<T.Tunnel>, BatchError>)
    requires |canListen| == remotes.Length
    requires T.Valid(client.Now())
    requires forall p | p in distributor.allowedPorts :: 0 <= p <= MAX_PORT
    modifies distributor, client, remotes
    ensures T.Valid(client.Now()) && old(client.tunnels) <= client.tunnels
    ensures res.Success? ==>
              var before, after := old(remotes[..]), remotes[..];
              && busy.Some?
              && AllServed(before, after, distributor.allowedPorts - busy.value, |before|)
              && distributor.portsPool ==
                 Some(distributor.allowedPorts - busy.value - Drawn(before, after, |before|))
              && |res.value| == |before|
              && AllStarted(res.value, after, client.tunnels, |before|)
              && client.Now() == T.Run(old(client.Now()), T.Starts(after))
    ensures res.Success? ==>
              NoneRefused(old(client.Now()), old(remotes[..]), remotes[..], distributor.allowedPorts,
                          distributor.allowedPorts - busy.value, validACL, canListen, remotes.Length)
    ensures busy.None? ==> res == Failure(BusyPortsUnknown) && client.Now() == old(client.Now()) && remotes[..] == old(remotes[..])
    ensures res.Failure? && busy.Some? ==>
              exists k: nat :: k < remotes.Length
                && RefusedAt(res.error, old(client.Now()), old(remotes[..]), remotes[..], distributor.allowedPorts,
                             distributor.allowedPorts - busy.value, validACL, canListen[k], k)
                && client.tunnels == T.Run(old(client.Now()), T.Starts(remotes[..k])).tunnels
  {
    var ok := distributor.Refresh(busy);
    if !ok {
      return Failure(BusyPortsUnknown);
    }
    ghost var was, before, pool := client.Now(), remotes[..], distributor.portsPool.value;
    var tunnels: seq<T.Tunnel> := [];
    NothingSoFar(was, before, pool);
    for i := 0 to remotes.Length
      invariant T.Valid(client.Now()) && was.tunnels <= client.tunnels
      invariant remotes[i..] == before[i..] && distributor.portsPool.Some?
      invariant SoFar(was, before, remotes[..], pool, distributor.portsPool.value, tunnels, client.Now(), i)
      invariant NoneRefused(was, before, remotes[..], distributor.allowedPorts, pool, validACL, canListen, i)
    {
      var t := StartEntry(distributor, client, remotes, i, validACL, canListen, tunnels, was, before, pool);
      if t.Failure? {
        return Failure(t.error);
      }
      tunnels := tunnels + [t.value];
    }
    AllDone(was, before, remotes[..], pool, distributor.portsPool.value, tunnels, client.Now());
    return Success(tunnels);
  }

  /** The first `n` entries have a tunnel each, in the list, that prints as the remote does. */
  ghost predicate AllStarted(ts: seq<T.Tunnel>, after: seq<Remote>, list: seq<T.Tunnel>, n: nat)
    requires n <= |ts| && n <= |after|
  {
    forall k: nat | k < n :: ts[k] in list && ts[k].remote.String() == after[k].String()
  }

  lemma StartedStep(ts: seq<T.Tunnel>, t: T.Tunnel, seen: seq<Remote>, after: seq<Remote>,
                    had: seq<T.Tunnel>, list: seq<T.Tunnel>, i: nat)
    requires |ts| == i < |after| == |seen| && after == seen[i := after[i]] && had <= list
    requires AllStarted(ts, seen, had, i)
    requires t in list && t.remote.String() == after[i].String()
    ensures AllStarted(ts + [t], after, list, i + 1)
  {
    forall k: nat | k < i ensures ts[k] in list { assert ts[k] in had; }
  }

  lemma NothingDrawn(before: seq<Remote>, after: seq<Remote>)
    ensures Drawn(before, after, 0) == {}
  {}

  lemma DrawnLocal(before: seq<Remote>, seen: seq<Remote>, after: seq<Remote>, k: nat)
    requires k <= |before| && |before| == |seen| == |after| && forall h | 0 <= h < k :: after[h] == seen[h]
    ensures Drawn(before, after, k) == Drawn(before, seen, k)
  {}

  /** Filling in entry `i` serves it and leaves the earlier ones served. */
  lemma Settled(before: seq<Remote>, seen: seq<Remote>, after: seq<Remote>, pool: set<int>, left: set<int>, i: nat)
    requires |before| == |seen| == |after| && i < |before|
    requires after == seen[i := after[i]]
    requires AllServed(before, seen, pool, i)
    requires forall p | p in pool :: 0 <= p <= MAX_PORT
    requires Settles(before[i], after[i], pool - Drawn(before, seen, i), left)
    ensures AllServed(before, after, pool, i + 1)
    ensures left == pool - Drawn(before, after, i + 1)
  {
    forall k: nat | k <= i ensures Served(before, after, pool, k) {
      DrawnLocal(before, seen, after, k);
      assert k < i ==> Served(before, seen, pool, k);
    }
    DrawnLocal(before, seen, after, i);
    if !before[i].IsLocalSpecified() {
      var free := pool - Drawn(before, seen, i);
      var p: nat :| p in free && left == free - {p} && after[i] == Assigned(before[i], p);
      AssignedPort(before[i], p);
      assert Drawn(before, after, i + 1) == Drawn(before, after, i) + {p};
    } else {
      assert Drawn(before, after, i + 1) == Drawn(before, after, i);
    }
  }

  // ---- When no batch fails ----

  lemma OneMoreDrawn(before: seq<Remote>, after: seq<Remote>, n: nat)
    requires n < |before| && n < |after|
    ensures Drawn(before, after, n + 1) <= Drawn(before, after, n) + {PortOf(after[n])}
  {}

  lemma {:induction false} FewDrawn(before: seq<Remote>, after: seq<Remote>, n: nat)
    requires n <= |before| && n <= |after|
    ensures |Drawn(before, after, n)| <= n
  {
    if n > 0 {
      var i := n - 1;
      var had, all := Drawn(before, after, i), Drawn(before, after, n);
      FewDrawn(before, after, i);
      OneMoreDrawn(before, after, i);
      Sets.AtMostOneMore(had, all, PortOf(after[i]));
      assert |all| <= |had| + 1;
    } else {
      NothingDrawn(before, after);
    }
  }

  lemma SomeFree(before: seq<Remote>, after: seq<Remote>, pool: set<int>, k: nat)
    requires k <= |before| && k <= |after| && k < |pool|
    ensures pool - Drawn(before, after, k) != {}
  {
    var drawn := Drawn(before, after, k);
    FewDrawn(before, after, k);
    if pool - drawn == {} {
      assert forall p | p in pool :: p in drawn || p in pool - drawn;
      Sets.IntSubsetSize(pool, drawn);
    }
  }

  lemma NothingDrawnYet(before: seq<Remote>, after: seq<Remote>, k: nat)
    requires k <= |before| && k <= |after| && forall i | 0 <= i < k :: before[i].IsLocalSpecified()
    ensures Drawn(before, after, k) == {}
  {}

  /** If all access lists parse, all ports can be bound, the explicit remotes come first with ports
      of the pool, and the pool has as many ports as there are remotes, then none is ever refused. */
  lemma NeverRefused(e: BatchError, was: T.State, before: seq<Remote>, after: seq<Remote>, allowed: set<int>, pool: set<int>,
                     validACL: string -> bool, k: nat)
    requires forall r | r in before && r.acl.Some? :: validACL(r.acl.value)
    requires forall i, j | 0 <= i < j < |before| && before[j].IsLocalSpecified() :: before[i].IsLocalSpecified()
    requires forall r | r in before && r.IsLocalSpecified() :: Atoi(r.localPort).Some? && PortOf(r) in pool
    requires |before| <= |pool| && pool <= allowed
    ensures !RefusedAt(e, was, before, after, allowed, pool, validACL, true, k)
  {
    if k < |before| && k < |after| {
      assert before[k] in before;
      if before[k].IsLocalSpecified() {
        NothingDrawnYet(before, after, k);
        assert pool - {} == pool;
      } else {
        SomeFree(before, after, pool, k);
      }
      assert Fits(before[k], pool - Drawn(before, after, k));
    }
  }

  // ---- What a successful batch means for the ports ----

  /** Random ports are apart from each other, and no explicit port equals one drawn before it.
      The other way round is not promised: an explicit port stays in the pool. */
  lemma DrawnApart(before: seq<Remote>, after: seq<Remote>, pool: set<int>, h: nat, k: nat)
    requires |before| == |after| && h < k < |before|
    requires forall p | p in pool :: 0 <= p <= MAX_PORT
    requires AllServed(before, after, pool, |before|)
    requires !before[h].IsLocalSpecified()
    ensures PortOf(after[h]) != PortOf(after[k])
  {
    assert PortOf(after[h]) in Drawn(before, after, k);
    assert Served(before, after, pool, k);
    if !before[k].IsLocalSpecified() {
      var p: nat :| p in pool - Drawn(before, after, k) && after[k] == Assigned(before[k], p);
      AssignedPort(before[k], p);
    }
  }

  /** With the pool made from the configured ranges, every port of a settled batch, drawn or
      explicit, lies in a used range, in no excluded one, and was not busy; an explicit remote is
      left as it is, and nothing but the local end of another one is filled in. */
  lemma SettledConfigured(before: seq<Remote>, after: seq<Remote>, allowed: set<int>, busy: set<int>,
                          used: seq<string>, excluded: seq<string>, k: nat)
    requires |before| == |after| && k < |before|
    requires forall p | p in allowed :: InSome(used, p) && !InSome(excluded, p)
    requires Served(before, after, allowed - busy, k)
    ensures var p := PortOf(after[k]);
            && InSome(used, p) && !InSome(excluded, p) && p !in busy && p >= 0
            && after[k] == if before[k].localHost != "" && before[k].localPort != "" then before[k]
                           else before[k].(localHost := "0.0.0.0", localPort := Itoa(p), localPortRandom := true)
  {
    if before[k].IsLocalSpecified() {
      ConfiguredPortsInRange(used, PortOf(before[k]));
    } else {
      var p: nat :| p in allowed - busy - Drawn(before, after, k) && after[k] == Assigned(before[k], p);
      ConfiguredPortsInRange(used, p);
      AssignedPort(before[k], p);
    }
  }

  /** Filling in a random port keeps a remote well formed, so the print still identifies it. */
  lemma AssignedWellFormed(r: Remote, port: nat)
    requires WellFormed(r)
    ensures WellFormed(Assigned(r, port))
  {
    PortHasNoColon(Itoa(port));
  }
}
