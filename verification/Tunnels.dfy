/** The list of tunnels a connected client has (server/clients/client.go). */
module Tunnels {
  import opened Wrappers
  import opened Remotes
  import Reestablish

  datatype Tunnel = Tunnel(id: int, remote: Remote)

  /** The list and the counter the next identifier comes from. */
  datatype State = State(tunnels: seq<Tunnel>, lastID: int)

  /** What happens to the list. Whether a port can be bound, and whether a tunnel lets itself
      be terminated, is decided outside. */
  datatype Event =
    | Start(remote: Remote, canListen: bool)
    | Terminate(id: int, terminated: bool)
    | AutoClose(id: int)

  const FRESH := State([], 0)

  /** The first tunnel that prints as `text`. */
  function Find(ts: seq<Tunnel>, text: string): (t: Option<Tunnel>)
    ensures t.Some? ==> t.value in ts && t.value.remote.String() == text
    ensures t.None? ==> forall i | 0 <= i < |ts| :: ts[i].remote.String() != text
  {
    if ts == [] then None
    else if ts[0].remote.String() == text then Some(ts[0])
    else Find(ts[1..], text)
  }

  function Without(ts: seq<Tunnel>, id: int): seq<Tunnel> {
    if ts == [] then []
    else Without(ts[..|ts| - 1], id) + (if ts[|ts| - 1].id != id then [ts[|ts| - 1]] else [])
  }

  function Apply(s: State, e: Event): State {
    match e
    case Start(remote, canListen) =>
      if Find(s.tunnels, remote.String()).Some? then s
      else
        var id := s.lastID + 1;
        State(if canListen then s.tunnels + [Tunnel(id, remote)] else s.tunnels, id)
    case Terminate(id, terminated) => if terminated then s.(tunnels := Without(s.tunnels, id)) else s
    case AutoClose(id) => s.(tunnels := Without(s.tunnels, id))
  }

  function Run(s: State, events: seq<Event>): State {
    if events == [] then s else Apply(Run(s, events[..|events| - 1]), events[|events| - 1])
  }

  /** Starting these remotes, each on a port that can be bound if it has to be. */
  function Starts(rs: seq<Remote>): seq<Event> {
    seq(|rs|, i requires 0 <= i < |rs| => Start(rs[i], true))
  }

  lemma RunFrom(s: State, events: seq<Event>, e: Event)
    ensures Run(s, events + [e]) == Apply(Run(s, events), e)
  {
    var all := events + [e];
    assert all[..|all| - 1] == events && all[|all| - 1] == e;
  }

  lemma StartsAppend(rs: seq<Remote>, r: Remote)
    ensures Starts(rs + [r]) == Starts(rs) + [Start(r, true)]
  {}

  lemma StartsOneMore(s: State, rs: seq<Remote>, r: Remote)
    ensures Run(s, Starts(rs + [r])) == Apply(Run(s, Starts(rs)), Start(r, true))
  {
    StartsAppend(rs, r);
    RunFrom(s, Starts(rs), Start(r, true));
  }

  class Client {
    var tunnels: seq<Tunnel>
    var tunnelIDAutoIncrement: int

    constructor ()
      ensures Now() == FRESH
    {
      tunnels := [];
      tunnelIDAutoIncrement := 0;
    }

    function Now(): State
      reads this
    {
      State(tunnels, tunnelIDAutoIncrement)
    }

    method FindTunnelByRemote(r: Remote) returns (t: Option<Tunnel>)
      ensures t == Find(tunnels, r.String())
    {
      var text := r.String();
      for i := 0 to |tunnels|
        invariant forall h | 0 <= h < i :: tunnels[h].remote.String() != text
      {
        if tunnels[i].remote.String() == text {
          FindIsFirst(tunnels, text, i);
          return Some(tunnels[i]);
        }
      }
      t := None;
    }

    method StartTunnel(r: Remote, canListen: bool) returns (t: Option<Tunnel>)
      modifies this
      ensures Now() == Apply(old(Now()), Start(r, canListen))
      ensures t == Find(tunnels, r.String())
    {
      t := FindTunnelByRemote(r);
      if t.Some? {
        return;
      }
      StartAbsent(Now(), r, canListen);
      tunnelIDAutoIncrement := tunnelIDAutoIncrement + 1;
      if !canListen {
        return None;
      }
      var tunnel := Tunnel(tunnelIDAutoIncrement, r);
      FindAppended(tunnels, tunnel);
      tunnels := tunnels + [tunnel];
      t := Some(tunnel);
    }

    method RemoveTunnelByID(id: int)
      modifies this
      ensures Now() == Apply(old(Now()), AutoClose(id))
    {
      var result := [];
      for i := 0 to |tunnels|
        invariant tunnels == old(tunnels) && unchanged(this)
        invariant result == Without(tunnels[..i], id)
      {
        assert tunnels[..i + 1][..i] == tunnels[..i];
        if tunnels[i].id != id {
          result := result + [tunnels[i]];
        }
      }
      assert tunnels[..|tunnels|] == tunnels;
      tunnels := result;
    }

    method TerminateTunnel(id: int, terminated: bool) returns (ok: bool)
      modifies this
      ensures Now() == Apply(old(Now()), Terminate(id, terminated)) && ok == terminated
    {
      if !terminated {
        return false;
      }
      RemoveTunnelByID(id);
      ok := true;
    }
  }

  /** The remotes of a tunnel list, as handed to the matching on reconnect. */
  method GetRemotes(ts: seq<Tunnel>) returns (r: seq<Remote>)
    ensures r == RemotesOf(ts)
  {
    r := [];
    for i := 0 to |ts|
      invariant r == RemotesOf(ts[..i])
    {
      r := r + [ts[i].remote];
    }
    assert ts[..|ts|] == ts;
  }

  function RemotesOf(ts: seq<Tunnel>): (r: seq<Remote>)
    ensures |r| == |ts| && forall i | 0 <= i < |ts| :: r[i] == ts[i].remote
  {
    seq(|ts|, i requires 0 <= i < |ts| => ts[i].remote)
  }

  lemma {:induction false} FindIsFirst(ts: seq<Tunnel>, text: string, i: nat)
    requires i < |ts| && ts[i].remote.String() == text
    requires forall h | 0 <= h < i :: ts[h].remote.String() != text
    ensures Find(ts, text) == Some(ts[i])
  {
    if i > 0 {
      FindIsFirst(ts[1..], text, i - 1);
    }
  }

  lemma FindAppended(ts: seq<Tunnel>, t: Tunnel)
    requires Find(ts, t.remote.String()).None?
    ensures Find(ts + [t], t.remote.String()) == Some(t)
  {
    FindIsFirst(ts + [t], t.remote.String(), |ts|);
  }

  // ---- What every run keeps ----

  /** Identifiers grow along the list and stay below the counter; no two tunnels print alike. */
  ghost predicate Valid(s: State) {
    && (forall i, j | 0 <= i < j < |s.tunnels| :: s.tunnels[i].id < s.tunnels[j].id)
    && (forall i | 0 <= i < |s.tunnels| :: s.tunnels[i].id <= s.lastID)
    && (forall i, j | 0 <= i < j < |s.tunnels| ::
          s.tunnels[i].remote.String() != s.tunnels[j].remote.String())
  }

  /** Removal keeps the rest, in order: `from` says where each kept tunnel stood. */
  lemma {:induction false} WithoutIsFilter(ts: seq<Tunnel>, id: int) returns (from: seq<nat>)
    ensures |from| == |Without(ts, id)|
    ensures forall k | 0 <= k < |from| :: from[k] < |ts| && Without(ts, id)[k] == ts[from[k]]
    ensures forall k, h | 0 <= k < h < |from| :: from[k] < from[h]
    ensures forall i | 0 <= i < |ts| :: ts[i].id != id <==> i in from
  {
    if ts == [] {
      from := [];
    } else {
      var n := |ts| - 1;
      from := WithoutIsFilter(ts[..n], id);
      assert forall i | 0 <= i < n :: ts[..n][i] == ts[i];
      if ts[n].id != id {
        from := from + [n];
      }
    }
  }

  lemma WithoutValid(s: State, id: int)
    requires Valid(s)
    ensures Valid(s.(tunnels := Without(s.tunnels, id)))
  {
    var from := WithoutIsFilter(s.tunnels, id);
  }

  lemma AppendValid(s: State, t: Tunnel)
    requires Valid(s) && t.id == s.lastID + 1 && Find(s.tunnels, t.remote.String()).None?
    ensures Valid(State(s.tunnels + [t], t.id))
  {}

  lemma SkipValid(s: State)
    requires Valid(s)
    ensures Valid(State(s.tunnels, s.lastID + 1))
  {}

  lemma StartValid(s: State, r: Remote, canListen: bool)
    requires Valid(s)
    ensures Valid(Apply(s, Start(r, canListen)))
  {
    if Find(s.tunnels, r.String()).None? {
      if canListen {
        AppendValid(s, Tunnel(s.lastID + 1, r));
      } else {
        SkipValid(s);
      }
    }
  }

  lemma ApplyValid(s: State, e: Event)
    requires Valid(s)
    ensures Valid(Apply(s, e))
  {
    match e
    case Start(r, canListen) => StartValid(s, r, canListen);
    case Terminate(id, _) => WithoutValid(s, id);
    case AutoClose(id) => WithoutValid(s, id);
  }

  /** Every run from a valid list, in particular from the empty one, ends in a valid list. */
  lemma {:induction false} RunValid(s: State, events: seq<Event>)
    requires Valid(s)
    ensures Valid(Run(s, events))
  {
    if events != [] {
      RunValid(s, events[..|events| - 1]);
      ApplyValid(Run(s, events[..|events| - 1]), events[|events| - 1]);
    }
  }

  /** Removing by identifier takes out at most that one tunnel. */
  lemma RemovesExactlyOne(s: State, id: int, t: Tunnel)
    requires Valid(s)
    ensures t in Apply(s, AutoClose(id)).tunnels <==> t in s.tunnels && t.id != id
  {
    var from := WithoutIsFilter(s.tunnels, id);
    if t in s.tunnels && t.id != id {
      var i :| 0 <= i < |s.tunnels| && s.tunnels[i] == t;
      var k :| 0 <= k < |from| && from[k] == i;
    }
    if t in Without(s.tunnels, id) {
      var k :| 0 <= k < |from| && Without(s.tunnels, id)[k] == t;
      assert from[k] in from;
    }
  }

  /** Terminating takes out the one tunnel exactly if that lets itself be terminated, and an idle
      tunnel that closes is taken out; nothing else changes. */
  lemma EndsExactlyOne(events: seq<Event>, id: int, terminated: bool, t: Tunnel)
    ensures var s := Run(FRESH, events);
            && (t in Apply(s, Terminate(id, terminated)).tunnels <==> t in s.tunnels && !(terminated && t.id == id))
            && (t in Apply(s, AutoClose(id)).tunnels <==> t in s.tunnels && t.id != id)
            && Apply(s, Terminate(id, terminated)).lastID == Apply(s, AutoClose(id)).lastID == s.lastID
  {
    RunValid(FRESH, events);
    RemovesExactlyOne(Run(FRESH, events), id, t);
  }

  ghost predicate Listed(ts: seq<Tunnel>, text: string) { exists t :: t in ts && t.remote.String() == text }

  lemma FindListed(ts: seq<Tunnel>, text: string)
    ensures Find(ts, text).Some? <==> Listed(ts, text)
  {
    forall t | t in ts && t.remote.String() == text ensures Find(ts, text).Some? {
      var i :| 0 <= i < |ts| && ts[i] == t;
    }
  }

  /** What a start does: it finds a tunnel exactly if one was there or the port can be bound; then
      it does what it does for a port that can be bound, and else the list stays as it was. */
  lemma StartEffect(s: State, r: Remote, canListen: bool)
    ensures var n := Apply(s, Start(r, canListen));
            && s.tunnels <= n.tunnels && (Valid(s) ==> Valid(n))
            && (Find(n.tunnels, r.String()).Some? <==> canListen || Listed(s.tunnels, r.String()))
            && (if canListen || Listed(s.tunnels, r.String()) then n == Apply(s, Start(r, true)) else n.tunnels == s.tunnels)
  {
    FindListed(s.tunnels, r.String());
    if Valid(s) {
      StartValid(s, r, canListen);
    }
    if Find(s.tunnels, r.String()).None? {
      StartAbsent(s, r, canListen);
      StartAbsent(s, r, true);
      FindAppended(s.tunnels, Tunnel(s.lastID + 1, r));
    }
  }

  /** Asking for a tunnel that is there changes nothing. */
  lemma StartPresent(s: State, r: Remote, canListen: bool, t: Tunnel)
    requires t in s.tunnels && t.remote.String() == r.String()
    ensures Apply(s, Start(r, canListen)) == s
  {}

  lemma StartAbsent(s: State, r: Remote, canListen: bool)
    requires Find(s.tunnels, r.String()).None?
    ensures var t := Tunnel(s.lastID + 1, r);
            Apply(s, Start(r, canListen)) == State(if canListen then s.tunnels + [t] else s.tunnels, t.id)
  {}

  lemma StartAgain(s: State, t: Tunnel)
    requires Find(s.tunnels, t.remote.String()).None?
    ensures Apply(State(s.tunnels + [t], t.id), Start(t.remote, true)) == State(s.tunnels + [t], t.id)
  {
    FindAppended(s.tunnels, t);
  }

  /** After a successful start the tunnel is there, so asking again changes nothing. */
  lemma StartTwice(s: State, r: Remote)
    ensures var after := Apply(s, Start(r, true));
            Find(after.tunnels, r.String()).Some? && Apply(after, Start(r, true)) == after
  {
    var found := Find(s.tunnels, r.String());
    if found.Some? {
      StartPresent(s, r, true, found.value);
    } else {
      var t := Tunnel(s.lastID + 1, r);
      StartAbsent(s, r, true);
      FindAppended(s.tunnels, t);
      StartAgain(s, t);
    }
  }

  /** Identifiers are never reused: a tunnel seen later either was there before or is newer. */
  lemma {:induction false} IdentifiersFresh(s: State, events: seq<Event>, t: Tunnel)
    requires Valid(s)
    ensures Run(s, events).lastID >= s.lastID
    ensures t in Run(s, events).tunnels ==> t in s.tunnels || t.id > s.lastID
  {
    if events != [] {
      var front, e := events[..|events| - 1], events[|events| - 1];
      IdentifiersFresh(s, front, t);
      RunValid(s, front);
      if !e.Start? {
        RemovesExactlyOne(Run(s, front), e.id, t);
      }
    }
  }

  /** Tunnels keep the remotes they were started with. */
  lemma {:induction false} RunWellFormed(events: seq<Event>)
    requires forall i | 0 <= i < |events| && events[i].Start? :: WellFormed(events[i].remote)
    ensures forall t | t in Run(FRESH, events).tunnels :: WellFormed(t.remote)
  {
    if events != [] {
      var front, e := events[..|events| - 1], events[|events| - 1];
      RunWellFormed(front);
      if !e.Start? {
        var from := WithoutIsFilter(Run(FRESH, front).tunnels, e.id);
      }
    }
  }

  /** The old tunnels a reconnecting client is matched against print apart, whatever happened
      to them before; so the matching is complete for them. */
  lemma OldTunnelsPrintApart(events: seq<Event>)
    ensures Reestablish.DistinctStrings(RemotesOf(Run(FRESH, events).tunnels))
  {
    RunValid(FRESH, events);
  }
}
