/** When a batch of tunnels ends up as fewer tunnels: starting a tunnel that prints like one in the
    list returns that one, so entries of a batch whose prints coincide collapse into one tunnel. */
module Collapse {
  import opened Strings
  import opened Remotes
  import opened Reestablish
  import opened TunnelBatch
  import P = Ports
  import Sets
  import T = Tunnels

  ghost predicate SameServices(a: seq<Remote>, b: seq<Remote>) {
    forall s :: Count(a, s) == Count(b, s)
  }

  // ---- The list a new client gets ----

  /** The remotes in a new client's list after these have been started. */
  ghost function Listed(rs: seq<Remote>): seq<Remote> {
    T.RemotesOf(T.Run(T.FRESH, T.Starts(rs)).tunnels)
  }

  ghost predicate Printed(rs: seq<Remote>, text: string) {
    exists i | 0 <= i < |rs| :: rs[i].String() == text
  }

  lemma FindPrinted(ts: seq<T.Tunnel>, text: string)
    ensures T.Find(ts, text).Some? <==> Printed(T.RemotesOf(ts), text)
  {
    if T.Find(ts, text).Some? {
      var i :| 0 <= i < |ts| && ts[i] == T.Find(ts, text).value;
      assert T.RemotesOf(ts)[i].String() == text;
    }
  }

  lemma ListedOneMore(rs: seq<Remote>, r: Remote)
    ensures Listed(rs + [r]) == if Printed(Listed(rs), r.String()) then Listed(rs) else Listed(rs) + [r]
  {
    var s := T.Run(T.FRESH, T.Starts(rs));
    T.StartsOneMore(T.FRESH, rs, r);
    FindPrinted(s.tunnels, r.String());
    assert T.RemotesOf(s.tunnels + [T.Tunnel(s.lastID + 1, r)]) == T.RemotesOf(s.tunnels) + [r];
  }

  lemma ListedNone()
    ensures Listed([]) == []
  {
    assert T.Starts([]) == [];
  }

  lemma PrintedAppend(rs: seq<Remote>, r: Remote, text: string)
    ensures Printed(rs + [r], text) <==> Printed(rs, text) || r.String() == text
  {
    var all := rs + [r];
    if Printed(rs, text) {
      var i :| 0 <= i < |rs| && rs[i].String() == text;
      assert all[i] == rs[i];
    }
    assert all[|rs|] == r;
  }

  lemma ApartAppend(rs: seq<Remote>, r: Remote)
    ensures DistinctStrings(rs + [r]) <==> DistinctStrings(rs) && !Printed(rs, r.String())
  {
    var all := rs + [r];
    assert forall i | 0 <= i < |rs| :: all[i] == rs[i];
    assert all[|rs|] == r;
  }

  lemma {:induction false} ListedPrints(rs: seq<Remote>, text: string)
    ensures Printed(Listed(rs), text) <==> Printed(rs, text)
  {
    if rs == [] {
      ListedNone();
    } else {
      var front, r := rs[..|rs| - 1], rs[|rs| - 1];
      assert rs == front + [r];
      ListedPrints(front, text);
      ListedOneMore(front, r);
      PrintedAppend(front, r, text);
      PrintedAppend(Listed(front), r, text);
    }
  }

  lemma {:induction false} ApartAllListed(rs: seq<Remote>)
    requires DistinctStrings(rs)
    ensures Listed(rs) == rs
  {
    if rs == [] {
      ListedNone();
    } else {
      var front, r := rs[..|rs| - 1], rs[|rs| - 1];
      assert rs == front + [r];
      ApartAppend(front, r);
      ApartAllListed(front);
      ListedOneMore(front, r);
    }
  }

  lemma {:induction false} ListedCounts(rs: seq<Remote>, s: Service)
    ensures Count(Listed(rs), s) <= Count(rs, s)
  {
    if rs == [] {
      ListedNone();
    } else {
      var front, r := rs[..|rs| - 1], rs[|rs| - 1];
      assert rs == front + [r];
      ListedCounts(front, s);
      ListedOneMore(front, r);
      CountOneMore(front, r, s);
      CountOneMore(Listed(front), r, s);
    }
  }

  /** When two prints coincide some service is listed less often than it was asked for. */
  lemma {:induction false} ListedLoses(rs: seq<Remote>) returns (s: Service)
    requires !DistinctStrings(rs)
    ensures Count(Listed(rs), s) < Count(rs, s)
  {
    var front, r := rs[..|rs| - 1], rs[|rs| - 1];
    assert rs == front + [r];
    ApartAppend(front, r);
    ListedOneMore(front, r);
    ListedPrints(front, r.String());
    if Printed(front, r.String()) {
      s := ServiceOf(r);
      ListedCounts(front, s);
    } else {
      s := ListedLoses(front);
      CountOneMore(Listed(front), r, s);
    }
    CountOneMore(front, r, s);
  }

  /** The list of a new client gives the services its batch asked for exactly when the entries
      print apart. */
  lemma ListedExactlyWhenApart(rs: seq<Remote>)
    ensures SameServices(Listed(rs), rs) <==> DistinctStrings(rs)
  {
    if DistinctStrings(rs) {
      ApartAllListed(rs);
    } else {
      var s := ListedLoses(rs);
    }
  }

  // ---- Which ports may be drawn ----

  /** How a successful batch may fill in its remotes. */
  ghost predicate Settlement(before: seq<Remote>, after: seq<Remote>, pool: set<int>) {
    |after| == |before| && AllServed(before, after, pool, |before|)
  }

  ghost predicate PortPool(pool: set<int>) { forall p | p in pool :: 0 <= p <= P.MAX_PORT }

  /** An explicit entry after entry `j` has port `p`. */
  ghost predicate Claimed(before: seq<Remote>, j: nat, p: int) {
    exists e | j < e < |before| && before[e].IsLocalSpecified() :: PortOf(before[e]) == p
  }

  /** The ports entry `j` could draw, if it were for the explicit entries after it. */
  ghost function Drawable(before: seq<Remote>, pool: set<int>, j: nat): set<int> {
    set p | p in pool && !Claimed(before, j, p)
  }

  /** How many of the first `n` entries are open. */
  function OpenUpTo(before: seq<Remote>, n: nat): nat
    requires n <= |before|
  {
    if n == 0 then 0 else OpenUpTo(before, n - 1) + if before[n - 1].IsLocalSpecified() then 0 else 1
  }

  /** The explicit ports can be had, and at every open entry there are ports enough for the open
      ones so far. */
  ghost predicate Feasible(before: seq<Remote>, pool: set<int>) {
    && (forall e | 0 <= e < |before| && before[e].IsLocalSpecified() :: PortOf(before[e]) in pool)
    && (forall j: nat | j < |before| && !before[j].IsLocalSpecified() ::
          OpenUpTo(before, j + 1) <= |Drawable(before, pool, j)|)
  }

  /** The batch is feasible, and entry `k` is open and may draw `p`: no explicit entry after it has
      that port, and the open ones before it can do without it. */
  ghost predicate MayDraw(before: seq<Remote>, pool: set<int>, k: nat, p: int) {
    && Feasible(before, pool)
    && k < |before| && !before[k].IsLocalSpecified() && p in Drawable(before, pool, k)
    && (forall j: nat | j < k && !before[j].IsLocalSpecified() && p in Drawable(before, pool, j) ::
          OpenUpTo(before, j + 1) < |Drawable(before, pool, j)|)
  }

  // ---- Filling a batch in ----

  /** The open entries but `k` among the first `n`. */
  function Others(before: seq<Remote>, k: nat, n: nat): int
    requires n <= |before|
  {
    OpenUpTo(before, n) - if k < n && !before[k].IsLocalSpecified() then 1 else 0
  }

  /** With `p` set aside for entry `k` there are ports enough for the others. */
  ghost predicate Room(before: seq<Remote>, pool: set<int>, k: nat, p: int) {
    && (k < |before| && !before[k].IsLocalSpecified() ==> p in Drawable(before, pool, k))
    && (forall j: nat | j < |before| && j != k && !before[j].IsLocalSpecified() ::
          Others(before, k, j + 1) <= |Drawable(before, pool, j) - {p}|)
  }

  lemma FeasibleRoom(before: seq<Remote>, pool: set<int>)
    requires Feasible(before, pool) && PortPool(pool)
    ensures Room(before, pool, |before|, -1)
  {
    forall j: nat | j < |before| && !before[j].IsLocalSpecified()
      ensures Drawable(before, pool, j) - {-1} == Drawable(before, pool, j)
    {}
  }

  lemma MayDrawRoom(before: seq<Remote>, pool: set<int>, k: nat, p: int)
    requires MayDraw(before, pool, k, p)
    ensures Room(before, pool, k, p)
  {
    forall j: nat | j < |before| && j != k && !before[j].IsLocalSpecified()
      ensures Others(before, k, j + 1) <= |Drawable(before, pool, j) - {p}|
    {
      var d := Drawable(before, pool, j);
      if p !in d {
        assert d - {p} == d;
      } else {
        assert |d - {p}| == |d| - 1;
      }
    }
  }

  /** Ports for the open ones among the first entries: drawable, different, and `p` for `k` only. */
  ghost predicate Chosen(before: seq<Remote>, pool: set<int>, k: nat, p: int, ports: seq<int>) {
    && |ports| <= |before|
    && (forall i: nat | i < |ports| && !before[i].IsLocalSpecified() ::
          ports[i] in Drawable(before, pool, i) && (ports[i] == p <==> i == k))
    && (forall i, j | 0 <= i < j < |ports| && !before[i].IsLocalSpecified() && !before[j].IsLocalSpecified() ::
          ports[i] != ports[j])
  }

  /** What the open ones but `k` have. */
  ghost predicate Uses(before: seq<Remote>, k: nat, ports: seq<int>, used: set<int>) {
    |ports| <= |before| &&
    forall i: nat | i < |ports| && i != k && !before[i].IsLocalSpecified() :: ports[i] in used
  }

  lemma PortLeft(free: set<int>, used: set<int>) returns (y: int)
    requires |used| < |free|
    ensures y in free && y !in used
  {
    Sets.IntSubsetSize(free * used, used);
    assert |free - used| == |free| - |free * used|;
    Sets.NonEmpty(free - used);
    y :| y in free - used;
  }

  /** One more port, for an entry that is explicit, or `k`, or another open one. */
  lemma ChosenOneMore(before: seq<Remote>, pool: set<int>, k: nat, p: int, ports: seq<int>, used: set<int>, y: int)
    requires Chosen(before, pool, k, p, ports) && Uses(before, k, ports, used) && p !in used && |ports| < |before|
    requires var n := |ports|;
             before[n].IsLocalSpecified() ||
             (y in Drawable(before, pool, n) && if n == k then y == p else y != p && y !in used)
    ensures Chosen(before, pool, k, p, ports + [y])
  {
    var n, all := |ports|, ports + [y];
    assert forall i | 0 <= i < n :: all[i] == ports[i];
    forall i: nat | i < n && !before[i].IsLocalSpecified() && !before[n].IsLocalSpecified() ensures all[i] != y {
      assert i != k ==> ports[i] in used;
    }
  }

  lemma UsesOneMore(before: seq<Remote>, k: nat, ports: seq<int>, used: set<int>, y: int)
    requires Uses(before, k, ports, used) && |ports| < |before|
    ensures Uses(before, k, ports + [y], used + {y})
    ensures before[|ports|].IsLocalSpecified() || |ports| == k ==> Uses(before, k, ports + [y], used)
  {}

  lemma {:induction false} Choose(before: seq<Remote>, pool: set<int>, k: nat, p: int, n: nat)
    returns (ports: seq<int>, used: set<int>)
    requires Room(before, pool, k, p) && n <= |before|
    ensures |ports| == n && Chosen(before, pool, k, p, ports)
    ensures Uses(before, k, ports, used) && |used| <= Others(before, k, n) && p !in used
  {
    if n == 0 {
      ports, used := [], {};
    } else {
      var front, seen := Choose(before, pool, k, p, n - 1);
      if before[n - 1].IsLocalSpecified() || n - 1 == k {
        ChosenOneMore(before, pool, k, p, front, seen, p);
        UsesOneMore(before, k, front, seen, p);
        ports, used := front + [p], seen;
      } else {
        var y := PortLeft(Drawable(before, pool, n - 1) - {p}, seen);
        ChosenOneMore(before, pool, k, p, front, seen, y);
        UsesOneMore(before, k, front, seen, y);
        ports, used := front + [y], seen + {y};
      }
    }
  }

  /** The batch filled in with these ports. */
  ghost function Filled(before: seq<Remote>, ports: seq<int>): (after: seq<Remote>)
    requires |ports| == |before|
    ensures |after| == |before|
  {
    seq(|before|, j requires 0 <= j < |before| =>
      if before[j].IsLocalSpecified() || ports[j] < 0 then before[j] else Assigned(before[j], ports[j]))
  }

  lemma FilledAt(before: seq<Remote>, ports: seq<int>, pool: set<int>, k: nat, p: int, j: nat)
    requires PortPool(pool) && Chosen(before, pool, k, p, ports) && |ports| == |before| && j < |before|
    ensures before[j].IsLocalSpecified() ==> Filled(before, ports)[j] == before[j]
    ensures !before[j].IsLocalSpecified() ==>
              ports[j] in pool && ports[j] >= 0 && Filled(before, ports)[j] == Assigned(before[j], ports[j]) &&
              PortOf(Filled(before, ports)[j]) == ports[j]
  {
    if !before[j].IsLocalSpecified() {
      assert ports[j] in Drawable(before, pool, j);
      AssignedPort(before[j], ports[j]);
    }
  }

  lemma DrawnByFilled(before: seq<Remote>, ports: seq<int>, pool: set<int>, k: nat, p: int, j: nat, q: int)
    returns (i: nat)
    requires PortPool(pool) && Chosen(before, pool, k, p, ports) && |ports| == |before| && j <= |before|
    requires q in Drawn(before, Filled(before, ports), j)
    ensures i < j && !before[i].IsLocalSpecified() && ports[i] == q
  {
    i :| 0 <= i < j && !before[i].IsLocalSpecified() && PortOf(Filled(before, ports)[i]) == q;
    FilledAt(before, ports, pool, k, p, i);
  }

  lemma FilledServed(before: seq<Remote>, ports: seq<int>, pool: set<int>, k: nat, p: int, j: nat)
    requires PortPool(pool) && Feasible(before, pool) && Chosen(before, pool, k, p, ports)
    requires |ports| == |before| && j < |before|
    ensures Served(before, Filled(before, ports), pool, j)
  {
    var after := Filled(before, ports);
    FilledAt(before, ports, pool, k, p, j);
    var q := if before[j].IsLocalSpecified() then PortOf(before[j]) else ports[j];
    if q in Drawn(before, after, j) {
      var i := DrawnByFilled(before, ports, pool, k, p, j, q);
      assert ports[i] in Drawable(before, pool, i);
      assert before[j].IsLocalSpecified() ==> Claimed(before, i, q);
    }
  }

  /** Any choice of ports gives a settlement. */
  lemma Fill(before: seq<Remote>, pool: set<int>, k: nat, p: int) returns (after: seq<Remote>)
    requires PortPool(pool) && Feasible(before, pool) && Room(before, pool, k, p)
    ensures Settlement(before, after, pool)
    ensures k < |before| && !before[k].IsLocalSpecified() ==> p >= 0 && after[k] == Assigned(before[k], p)
  {
    var ports, used := Choose(before, pool, k, p, |before|);
    after := Filled(before, ports);
    forall j: nat | j < |before| ensures Served(before, after, pool, j) {
      FilledServed(before, ports, pool, k, p, j);
    }
    if k < |before| {
      FilledAt(before, ports, pool, k, p, k);
    }
  }

  // ---- What a settlement shows ----

  lemma {:induction false} DrawnSize(before: seq<Remote>, after: seq<Remote>, pool: set<int>, n: nat)
    requires PortPool(pool) && Settlement(before, after, pool) && n <= |before|
    ensures |Drawn(before, after, n)| == OpenUpTo(before, n)
  {
    if n == 0 {
      NothingDrawn(before, after);
    } else {
      DrawnSize(before, after, pool, n - 1);
      DrawnStep(before, after, pool, n - 1);
    }
  }

  lemma DrawnStep(before: seq<Remote>, after: seq<Remote>, pool: set<int>, j: nat)
    requires PortPool(pool) && Settlement(before, after, pool) && j < |before|
    ensures if before[j].IsLocalSpecified() then Drawn(before, after, j + 1) == Drawn(before, after, j)
            else PortOf(after[j]) !in Drawn(before, after, j) &&
                 Drawn(before, after, j + 1) == Drawn(before, after, j) + {PortOf(after[j])}
  {
    assert Served(before, after, pool, j);
    if !before[j].IsLocalSpecified() {
      var p: nat :| p in pool - Drawn(before, after, j) && after[j] == Assigned(before[j], p);
      AssignedPort(before[j], p);
    }
  }

  /** A port drawn at or before `j` was there for entry `j`, too. */
  lemma DrawnIsDrawable(before: seq<Remote>, after: seq<Remote>, pool: set<int>, j: nat)
    requires PortPool(pool) && Settlement(before, after, pool) && j < |before|
    ensures Drawn(before, after, j + 1) <= Drawable(before, pool, j)
  {
    forall q | q in Drawn(before, after, j + 1) ensures q in Drawable(before, pool, j) {
      var i :| 0 <= i < j + 1 && !before[i].IsLocalSpecified() && PortOf(after[i]) == q;
      DrawnFromPool(before, after, pool, i);
      forall e | j < e < |before| && before[e].IsLocalSpecified() ensures PortOf(before[e]) != q {
        assert Served(before, after, pool, e);
        assert q in Drawn(before, after, e);
      }
    }
  }

  lemma DrawnFromPool(before: seq<Remote>, after: seq<Remote>, pool: set<int>, i: nat)
    requires PortPool(pool) && Settlement(before, after, pool) && i < |before| && !before[i].IsLocalSpecified()
    ensures PortOf(after[i]) in pool
  {
    assert Served(before, after, pool, i);
    var p: nat :| p in pool - Drawn(before, after, i) && after[i] == Assigned(before[i], p);
    AssignedPort(before[i], p);
  }

  lemma SettledIsFeasible(before: seq<Remote>, after: seq<Remote>, pool: set<int>)
    requires PortPool(pool) && Settlement(before, after, pool)
    ensures Feasible(before, pool)
  {
    forall e | 0 <= e < |before| && before[e].IsLocalSpecified() ensures PortOf(before[e]) in pool {
      assert Served(before, after, pool, e);
    }
    forall j: nat | j < |before| && !before[j].IsLocalSpecified()
      ensures OpenUpTo(before, j + 1) <= |Drawable(before, pool, j)|
    {
      DrawnSize(before, after, pool, j + 1);
      DrawnIsDrawable(before, after, pool, j);
      Sets.IntSubsetSize(Drawn(before, after, j + 1), Drawable(before, pool, j));
    }
  }

  /** A port drawn later was drawn by nobody before. */
  lemma NotDrawnBefore(before: seq<Remote>, after: seq<Remote>, pool: set<int>, j: nat, k: nat)
    requires PortPool(pool) && Settlement(before, after, pool) && j < k < |before| && !before[k].IsLocalSpecified()
    ensures PortOf(after[k]) !in Drawn(before, after, j + 1)
  {
    if PortOf(after[k]) in Drawn(before, after, j + 1) {
      var i :| 0 <= i < j + 1 && !before[i].IsLocalSpecified() && PortOf(after[i]) == PortOf(after[k]);
      DrawnApart(before, after, pool, i, k);
    }
  }

  lemma OneToSpare(before: seq<Remote>, after: seq<Remote>, pool: set<int>, j: nat, k: nat)
    requires PortPool(pool) && Settlement(before, after, pool) && j < k < |before|
    requires !before[k].IsLocalSpecified() && PortOf(after[k]) in Drawable(before, pool, j)
    ensures OpenUpTo(before, j + 1) < |Drawable(before, pool, j)|
  {
    DrawnSize(before, after, pool, j + 1);
    DrawnIsDrawable(before, after, pool, j);
    NotDrawnBefore(before, after, pool, j, k);
    Sets.OneMoreIn(Drawn(before, after, j + 1), Drawable(before, pool, j), PortOf(after[k]));
  }

  lemma SettledMayDraw(before: seq<Remote>, after: seq<Remote>, pool: set<int>, k: nat)
    requires PortPool(pool) && Settlement(before, after, pool) && k < |before| && !before[k].IsLocalSpecified()
    ensures MayDraw(before, pool, k, PortOf(after[k]))
  {
    var p := PortOf(after[k]);
    SettledIsFeasible(before, after, pool);
    DrawnStep(before, after, pool, k);
    DrawnIsDrawable(before, after, pool, k);
    forall j: nat | j < k && !before[j].IsLocalSpecified() && p in Drawable(before, pool, j)
      ensures OpenUpTo(before, j + 1) < |Drawable(before, pool, j)|
    {
      OneToSpare(before, after, pool, j, k);
    }
  }

  /** A batch can be settled exactly when it is feasible. */
  lemma SettledExactlyWhenFeasible(before: seq<Remote>, pool: set<int>)
    requires PortPool(pool)
    ensures (exists after :: Settlement(before, after, pool)) <==> Feasible(before, pool)
  {
    if Feasible(before, pool) {
      FeasibleRoom(before, pool);
      var after := Fill(before, pool, |before|, -1);
    }
    forall after | Settlement(before, after, pool) ensures Feasible(before, pool) {
      SettledIsFeasible(before, after, pool);
    }
  }

  /** In some settlement an open entry draws port `p`, explicit earlier in the batch or not, exactly
      when it may: the draw does not look at the explicit ports before it. */
  lemma DrawnExactlyWhen(before: seq<Remote>, pool: set<int>, k: nat, p: int)
    requires PortPool(pool) && k < |before| && !before[k].IsLocalSpecified()
    ensures (exists after :: Settlement(before, after, pool) && PortOf(after[k]) == p) <==> MayDraw(before, pool, k, p)
  {
    if MayDraw(before, pool, k, p) {
      var after := Draw(before, pool, k, p);
    }
    forall after | Settlement(before, after, pool) && PortOf(after[k]) == p ensures MayDraw(before, pool, k, p) {
      SettledMayDraw(before, after, pool, k);
    }
  }

  lemma Draw(before: seq<Remote>, pool: set<int>, k: nat, p: int) returns (after: seq<Remote>)
    requires PortPool(pool) && MayDraw(before, pool, k, p)
    ensures Settlement(before, after, pool) && p >= 0 && after[k] == Assigned(before[k], p) && PortOf(after[k]) == p
  {
    MayDrawRoom(before, pool, k, p);
    after := Fill(before, pool, k, p);
    AssignedPort(before[k], p);
  }

  // ---- When the entries are sure to print apart ----

  ghost predicate AllWellFormed(rs: seq<Remote>) { forall r | r in rs :: WellFormed(r) }

  ghost predicate ExplicitApart(before: seq<Remote>) {
    forall h, k | 0 <= h < k < |before| && before[h].IsLocalSpecified() && before[k].IsLocalSpecified() ::
      before[h].String() != before[k].String()
  }

  /** An explicit entry on all interfaces, and a later open one for the same service that may draw
      its port. */
  ghost predicate MayMeet(before: seq<Remote>, pool: set<int>, h: nat, k: nat) {
    && h < k < |before| && before[h].IsLocalSpecified()
    && MayDraw(before, pool, k, PortOf(before[h]))
    && ServiceOf(before[h]) == ServiceOf(before[k])
    && before[h].localHost == ZERO_HOST
    && PortOf(before[h]) >= 0 && before[h].localPort == Itoa(PortOf(before[h]))
  }

  ghost predicate SureApart(before: seq<Remote>, pool: set<int>) {
    (Feasible(before, pool) ==> ExplicitApart(before)) && forall h: nat, k: nat :: !MayMeet(before, pool, h, k)
  }

  lemma SameServiceFields(a: Remote, b: Remote)
    requires WellFormed(a) && WellFormed(b)
    ensures ServiceOf(a) == ServiceOf(b) <==> a.remoteHost == b.remoteHost && a.remotePort == b.remotePort && a.acl == b.acl
  {
    if ServiceOf(a) == ServiceOf(b) {
      assert a.Target() == a.remoteHost + ([':'] + a.remotePort);
      assert b.Target() == b.remoteHost + ([':'] + b.remotePort);
      FirstCutUnique(a.remoteHost, a.remotePort, b.remoteHost, b.remotePort, ':');
    }
  }

  /** An explicit entry and a drawn one print alike exactly when host, port and service agree. */
  lemma MeetExactlyWhen(e: Remote, o: Remote, p: nat)
    requires WellFormed(e) && WellFormed(o)
    ensures e.String() == Assigned(o, p).String() <==>
            e.localHost == ZERO_HOST && e.localPort == Itoa(p) && ServiceOf(e) == ServiceOf(o)
  {
    AssignedWellFormed(o, p);
    StringInjective(e, Assigned(o, p));
    SameServiceFields(e, o);
  }

  /** Two entries of a settlement print apart if they are not both explicit and may not meet. */
  lemma PairApart(before: seq<Remote>, after: seq<Remote>, pool: set<int>, h: nat, k: nat)
    requires AllWellFormed(before) && PortPool(pool) && Settlement(before, after, pool)
    requires h < k < |before| && !(before[h].IsLocalSpecified() && before[k].IsLocalSpecified())
    requires !MayMeet(before, pool, h, k)
    ensures after[h].String() != after[k].String()
  {
    assert Served(before, after, pool, h) && Served(before, after, pool, k);
    if before[h].IsLocalSpecified() {
      var p: nat :| p in pool && after[k] == Assigned(before[k], p);
      MeetExactlyWhen(before[h], before[k], p);
      AtoiIsPort(before[h], p);
      AssignedPort(before[k], p);
      SettledMayDraw(before, after, pool, k);
    } else {
      DrawnApart(before, after, pool, h, k);
      SettledWellFormed(before, after, pool, h);
      SettledWellFormed(before, after, pool, k);
      StringInjective(after[h], after[k]);
    }
  }

  lemma AtoiIsPort(r: Remote, p: nat)
    requires p <= P.MAX_PORT
    ensures r.localPort == Itoa(p) ==> PortOf(r) == p
  {
    AtoiItoa(p);
  }

  lemma SettledWellFormed(before: seq<Remote>, after: seq<Remote>, pool: set<int>, k: nat)
    requires AllWellFormed(before) && k < |before| && k < |after| && Served(before, after, pool, k)
    ensures WellFormed(after[k])
  {
    assert before[k] in before;
    if !before[k].IsLocalSpecified() {
      var p: nat :| after[k] == Assigned(before[k], p);
      AssignedWellFormed(before[k], p);
    }
  }

  lemma SureStaysApart(before: seq<Remote>, after: seq<Remote>, pool: set<int>)
    requires AllWellFormed(before) && PortPool(pool) && Settlement(before, after, pool) && SureApart(before, pool)
    ensures DistinctStrings(after)
  {
    SettledIsFeasible(before, after, pool);
    forall h, k | 0 <= h < k < |after| ensures after[h].String() != after[k].String() {
      if before[h].IsLocalSpecified() && before[k].IsLocalSpecified() {
        assert Served(before, after, pool, h) && Served(before, after, pool, k);
      } else {
        assert !MayMeet(before, pool, h, k);
        PairApart(before, after, pool, h, k);
      }
    }
  }

  lemma UnsureMeets(before: seq<Remote>, pool: set<int>) returns (after: seq<Remote>)
    requires AllWellFormed(before) && PortPool(pool) && !SureApart(before, pool)
    ensures Settlement(before, after, pool) && !DistinctStrings(after)
  {
    if Feasible(before, pool) && !ExplicitApart(before) {
      var h, k :| 0 <= h < k < |before| && before[h].IsLocalSpecified() && before[k].IsLocalSpecified() &&
                  before[h].String() == before[k].String();
      FeasibleRoom(before, pool);
      after := Fill(before, pool, |before|, -1);
      assert Served(before, after, pool, h) && Served(before, after, pool, k);
    } else {
      var h: nat, k: nat :| MayMeet(before, pool, h, k);
      after := Draw(before, pool, k, PortOf(before[h]));
      assert Served(before, after, pool, h);
      MeetExactlyWhen(before[h], before[k], PortOf(before[h]));
    }
  }

  /** Whatever is drawn, the entries of a successful batch print apart: this is sure exactly when
      the explicit ones do, unless the batch must fail, and no open one may meet one of them. */
  lemma ApartExactlyWhen(before: seq<Remote>, pool: set<int>)
    requires AllWellFormed(before) && PortPool(pool)
    ensures (forall after | Settlement(before, after, pool) :: DistinctStrings(after)) <==> SureApart(before, pool)
  {
    if SureApart(before, pool) {
      forall after | Settlement(before, after, pool) ensures DistinctStrings(after) {
        SureStaysApart(before, after, pool);
      }
    } else {
      var after := UnsureMeets(before, pool);
    }
  }
}
