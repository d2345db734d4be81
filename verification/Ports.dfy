/** Port ranges (server/ports/port_range.go, server/config.go) and the pool random ports are
    drawn from (server/ports/port_distributor.go). */
module Ports {
  import opened Wrappers
  import opened Strings
  import Sets

  const MAX_PORT := 65535

  /** The port a text denotes, if it denotes one. */
  function PortNumber(text: string): (p: Option<int>)
    ensures p.Some? <==> Atoi(text).Some? && 0 <= Atoi(text).value <= MAX_PORT
    ensures p.Some? ==> p == Atoi(text)
  {
    var n := Atoi(text);
    if n.Some? && 0 <= n.value <= MAX_PORT then n else None
  }

  /** The first and the last part of a text cut at its dashes. */
  function Ends(text: string): (string, string) {
    var parts := Split(text, '-');
    (parts[0], parts[|parts| - 1])
  }

  /** One port, or two with a dash between them, the first not above the second. */
  predicate IsRange(text: string) {
    && |Split(text, '-')| <= 2
    && PortNumber(Ends(text).0).Some? && PortNumber(Ends(text).1).Some?
    && PortNumber(Ends(text).0).value <= PortNumber(Ends(text).1).value
  }

  predicate InRange(text: string, p: int) {
    IsRange(text) && PortNumber(Ends(text).0).value <= p <= PortNumber(Ends(text).1).value
  }

  lemma NoDash(p: nat)
    ensures '-' !in Itoa(p)
  {}

  lemma OneEnd(t: string)
    requires '-' !in t
    ensures Split(t, '-') == [t]
  {
    SplitNone(t, '-');
  }

  lemma TwoEnds(t: string, u: string)
    requires '-' !in t && '-' !in u
    ensures Split(t + "-" + u, '-') == [t, u]
  {
    SplitNone(u, '-');
    SplitCons(t, u, '-');
    assert t + "-" + u == t + (['-'] + u) && [t] + [u] == [t, u];
  }

  lemma PortText(p: nat)
    requires p <= MAX_INT64
    ensures PortNumber(Itoa(p)) == if p <= 65535 then Some(p) else None
  {
    AtoiItoa(p);
  }

  /** What the texts mean: a port stands for itself, and `p-q` for all ports from p to q; it is no
      range if p is above q, or if one of them is no port. */
  lemma RangeTexts(p: nat, q: nat, x: int)
    requires p <= MAX_INT64 && q <= MAX_INT64
    ensures IsRange(Itoa(p)) <==> p <= 65535
    ensures InRange(Itoa(p), x) <==> x == p && p <= 65535
    ensures IsRange(Itoa(p) + "-" + Itoa(q)) <==> p <= q <= 65535
    ensures InRange(Itoa(p) + "-" + Itoa(q), x) <==> p <= x <= q <= 65535
  {
    NoDash(p);
    NoDash(q);
    PortText(p);
    PortText(q);
    OneEnd(Itoa(p));
    TwoEnds(Itoa(p), Itoa(q));
  }

  ghost predicate InSome(ranges: seq<string>, p: int) {
    exists i | 0 <= i < |ranges| :: InRange(ranges[i], p)
  }

  /** The texts of some ranges, as they stand in a configuration. */
  function Texts(bounds: seq<(nat, nat)>): (texts: seq<string>)
    ensures |texts| == |bounds|
  {
    seq(|bounds|, i requires 0 <= i < |bounds| => Itoa(bounds[i].0) + "-" + Itoa(bounds[i].1))
  }

  /** A list of ranges covers exactly the ports between the bounds of one of them. */
  lemma ConfiguredRanges(bounds: seq<(nat, nat)>, x: int)
    requires forall b | b in bounds :: b.0 <= MAX_INT64 && b.1 <= MAX_INT64
    ensures InSome(Texts(bounds), x) <==> exists i | 0 <= i < |bounds| :: bounds[i].0 <= x <= bounds[i].1 <= 65535
    ensures (exists i | 0 <= i < |bounds| :: !IsRange(Texts(bounds)[i])) <==>
            exists i | 0 <= i < |bounds| :: !(bounds[i].0 <= bounds[i].1 <= 65535)
  {
    forall i | 0 <= i < |bounds|
      ensures InRange(Texts(bounds)[i], x) <==> bounds[i].0 <= x <= bounds[i].1 <= 65535
      ensures IsRange(Texts(bounds)[i]) <==> bounds[i].0 <= bounds[i].1 <= 65535
    {
      assert bounds[i] in bounds;
      RangeTexts(bounds[i].0, bounds[i].1, x);
    }
  }

  method SetFromRange(start: int, end: int) returns (s: set<int>)
    requires start <= end
    ensures forall p :: p in s <==> start <= p <= end
  {
    s := {};
    var i := 0;
    while i <= end - start
      invariant 0 <= i <= end - start + 1
      invariant forall p :: p in s <==> start <= p < start + i
    {
      s := s + {start + i};
      i := i + 1;
    }
  }

  method TryParsePortRange(text: string) returns (ports: Option<set<int>>)
    ensures ports.Some? <==> IsRange(text)
    ensures ports.Some? ==> forall p :: p in ports.value <==> InRange(text, p)
  {
    var parts := Split(text, '-');
    if |parts| == 1 {
      var p := PortNumber(parts[0]);
      if p.None? {
        return None;
      }
      return Some({p.value});
    } else if |parts| == 2 {
      var p, q := PortNumber(parts[0]), PortNumber(parts[1]);
      if p.None? || q.None? || p.value > q.value {
        return None;
      }
      var s := SetFromRange(p.value, q.value);
      return Some(s);
    } else {
      return None;
    }
  }

  ghost function PortsOf(text: string): (s: set<int>)
    requires IsRange(text)
    ensures forall p :: p in s <==> InRange(text, p)
  {
    set p | 0 <= p <= MAX_PORT && InRange(text, p)
  }

  /** The union of the ranges, if all of them are well formed. */
  ghost function Union(ranges: seq<string>): Option<set<int>> {
    if ranges == [] then Some({})
    else
      var n := |ranges| - 1;
      var front := Union(ranges[..n]);
      if front.None? || !IsRange(ranges[n]) then None else Some(front.value + PortsOf(ranges[n]))
  }

  method TryParsePortRanges(ranges: seq<string>) returns (res: Option<set<int>>)
    ensures res == Union(ranges)
    ensures res.None? <==> exists i | 0 <= i < |ranges| :: !IsRange(ranges[i])
    ensures res.Some? ==> forall p :: p in res.value <==> InSome(ranges, p)
  {
    UnionMembers(ranges);
    var result: set<int> := {};
    for i := 0 to |ranges|
      invariant Union(ranges[..i]) == Some(result)
    {
      var ports := TryParsePortRange(ranges[i]);
      assert ranges[..i + 1][..i] == ranges[..i];
      if ports.None? {
        return None;
      }
      assert ports.value == PortsOf(ranges[i]);
      result := result + ports.value;
    }
    assert ranges[..|ranges|] == ranges;
    return Some(result);
  }

  lemma {:induction false} UnionMembers(ranges: seq<string>)
    ensures Union(ranges).None? <==> exists i | 0 <= i < |ranges| :: !IsRange(ranges[i])
    ensures Union(ranges).Some? ==> forall p :: p in Union(ranges).value <==> InSome(ranges, p)
  {
    if ranges != [] {
      var front, last := ranges[..|ranges| - 1], ranges[|ranges| - 1];
      UnionMembers(front);
      assert ranges == front + [last];
      if Union(ranges).Some? {
        forall p ensures p in Union(ranges).value <==> InSome(ranges, p) {
          InSomeAppend(front, last, p);
        }
      }
    }
  }

  lemma InSomeAppend(ranges: seq<string>, text: string, p: int)
    ensures InSome(ranges + [text], p) <==> InSome(ranges, p) || InRange(text, p)
  {
    var all := ranges + [text];
    if InSome(ranges, p) {
      var h :| 0 <= h < |ranges| && InRange(ranges[h], p);
      assert all[h] == ranges[h];
    }
    assert all[|ranges|] == text;
  }

  /** The ports that may be handed out: in a used range and in no excluded one. It is an error
      for there to be none. */
  method ParseAndValidatePorts(used: seq<string>, excluded: seq<string>) returns (res: Option<set<int>>)
    ensures res.Some? ==> forall p :: p in res.value <==> InSome(used, p) && !InSome(excluded, p)
    ensures res.None? <==>
              (exists i | 0 <= i < |used| :: !IsRange(used[i])) ||
              (exists i | 0 <= i < |excluded| :: !IsRange(excluded[i])) ||
              (forall p | InSome(used, p) :: InSome(excluded, p))
  {
    var usedPorts := TryParsePortRanges(used);
    if usedPorts.None? {
      return None;
    }
    var excludedPorts := TryParsePortRanges(excluded);
    if excludedPorts.None? {
      return None;
    }
    var allowed := usedPorts.value - excludedPorts.value;
    if allowed == {} {
      forall p | InSome(used, p) ensures InSome(excluded, p) { assert p !in allowed; }
      return None;
    }
    Sets.NonEmpty(allowed);
    var some :| some in allowed;
    assert InSome(used, some) && !InSome(excluded, some);
    return Some(allowed);
  }

  lemma ConfiguredPortsInRange(ranges: seq<string>, p: int)
    requires InSome(ranges, p)
    ensures 0 <= p <= MAX_PORT
  {}

  class PortDistributor {
    const allowedPorts: set<int>
    var portsPool: Option<set<int>>

    constructor (allowed: set<int>)
      ensures allowedPorts == allowed && portsPool == None
    {
      allowedPorts := allowed;
      portsPool := None;
    }

    /** `busy` is the operating system's list of ports in use, or nothing if it cannot be read. */
    method Refresh(busy: Option<set<int>>) returns (ok: bool)
      modifies this
      ensures ok == busy.Some?
      ensures portsPool == if ok then Some(allowedPorts - busy.value) else old(portsPool)
    {
      if busy.None? {
        return false;
      }
      portsPool := Some(allowedPorts - busy.value);
      ok := true;
    }

    /** Takes any port out of the pool, filling the pool first if it never was. */
    method GetRandomPort(busy: Option<set<int>>) returns (port: Option<int>)
      modifies this
      ensures var pool := if old(portsPool).Some? then old(portsPool)
                          else if busy.Some? then Some(allowedPorts - busy.value) else None;
              && (port.Some? ==> pool.Some? && port.value in pool.value &&
                                 portsPool == Some(pool.value - {port.value}))
              && (port.None? ==> (pool.None? || pool.value == {}) && portsPool == pool)
    {
      if portsPool.None? {
        var ok := Refresh(busy);
        if !ok {
          return None;
        }
      }
      var pool: set<int> := portsPool.value;
      if pool == {} {
        return None;
      }
      Sets.NonEmpty(pool);
      var p :| p in pool;
      portsPool := Some(pool - {p});
      port := Some(p);
    }

    predicate IsPortAllowed(port: int) { port in allowedPorts }

    predicate IsPortBusy(port: int)
      requires portsPool.Some?
      reads this
    {
      port !in portsPool.value
    }
  }
}
