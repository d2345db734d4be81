/** Which old tunnels a reconnecting client gets back (server/client_listener.go): a two-pass
    greedy matching of the new remotes against the old ones. */
module Reestablish {
  import opened Wrappers
  import opened Remotes
  import M = Matching

  /** The source answers nil both when nothing matches and when nothing is left over; here the
      two answers are apart. */
  datatype Outcome = Mismatch | Remaining(remotes: seq<Remote>)

  /** When an old tunnel can stand for a requested one. */
  predicate Compatible(n: Remote, o: Remote) {
    if n.IsLocalSpecified() then n.String() == o.String()
    else o.localPortRandom && n.Target() == o.Target() && n.EqualACL(o.acl)
  }

  /** Which old tunnel suits which new remote, by index. */
  ghost function Suiting(olds: seq<Remote>, news: seq<Remote>): M.Suits {
    (j: nat, i: nat) => j < |news| && i < |olds| && Compatible(news[j], olds[i])
  }

  /** Remotes with a local address are handled first. */
  ghost function LocalFirst(news: seq<Remote>): nat -> bool {
    (j: nat) => j < |news| && news[j].IsLocalSpecified()
  }

  /** An injective choice of a compatible old tunnel for every new one. */
  ghost predicate Assignment(olds: seq<Remote>, news: seq<Remote>, a: seq<nat>) {
    M.Assignment(Suiting(olds, news), |news|, a)
  }

  /** Every new remote got the first compatible old tunnel still free at its turn. */
  ghost predicate FirstFit(olds: seq<Remote>, news: seq<Remote>, a: seq<nat>) {
    M.FirstFit(Suiting(olds, news), LocalFirst(news), M.AsMap(a))
  }

  ghost predicate DistinctStrings(rs: seq<Remote>) {
    forall i, j | 0 <= i < j < |rs| :: rs[i].String() != rs[j].String()
  }

  /** The copy of an old tunnel that is requested again: a random local end is blanked. */
  function Blank(r: Remote): Remote {
    if r.localPortRandom then r.(localHost := "", localPort := "") else r
  }

  /** The first `n` old tunnels without the taken ones, in order. */
  function Leftovers(olds: seq<Remote>, taken: set<nat>, n: nat): seq<Remote>
    requires n <= |olds|
  {
    if n == 0 then []
    else Leftovers(olds, taken, n - 1) + (if n - 1 in taken then [] else [Blank(olds[n - 1])])
  }

  ghost function Range(a: seq<nat>): set<nat> { set j | 0 <= j < |a| :: a[j] }

  type Service = (string, Option<string>)

  /** What a tunnel gives access to, and to whom. */
  function ServiceOf(r: Remote): Service { (r.Target(), r.acl) }

  /** Some remote with a local end prints like this. */
  ghost predicate PrintsLocal(text: string) { exists x: Remote :: x.IsLocalSpecified() && x.String() == text }

  /** Among old remotes that print alike, and like a remote with a local end, whatever follows one
      on a random port is on a random port, too, and for the same service. */
  ghost predicate Tidy(olds: seq<Remote>) {
    forall i, h | 0 <= i < h < |olds| && olds[i].String() == olds[h].String() && olds[i].localPortRandom &&
                  PrintsLocal(olds[i].String()) ::
      olds[h].localPortRandom && ServiceOf(olds[h]) == ServiceOf(olds[i])
  }

  lemma DistinctIsTidy(olds: seq<Remote>)
    requires DistinctStrings(olds)
    ensures Tidy(olds)
  {}

  /** Remotes with a local end that share a candidate share them all, and so do remotes without;
      between the two kinds the order of a tidy list decides. */
  lemma StringsDecide(olds: seq<Remote>, news: seq<Remote>)
    ensures M.FirstClasses(Suiting(olds, news), LocalFirst(news))
    ensures M.Classes(Suiting(olds, news), LocalFirst(news))
  {}

  lemma TidyOrders(olds: seq<Remote>, news: seq<Remote>)
    requires Tidy(olds)
    ensures M.Ordered(Suiting(olds, news), LocalFirst(news))
  {
    var suits, first := Suiting(olds, news), LocalFirst(news);
    forall j: nat, c: nat, i: nat, h: nat |
      first(j) && !first(c) && suits(j, i) && suits(c, i) && suits(j, h) && i < h ensures suits(c, h)
    {
      assert news[j].IsLocalSpecified() && news[j].String() == olds[i].String();
      assert PrintsLocal(olds[i].String());
    }
  }

  // ---- The two passes ----

  /** The matching made so far: greedy, and recorded in the marks. */
  ghost predicate Greedy(olds: seq<Remote>, news: seq<Remote>, marked: seq<bool>, fit: map<nat, nat>) {
    && |marked| == |olds|
    && M.Fits(Suiting(olds, news), fit)
    && M.FirstFit(Suiting(olds, news), LocalFirst(news), fit)
    && M.Marks(marked, fit)
  }

  /** Looks for the first free old tunnel for `news[c]` and marks it. */
  method MarkFirst(olds: seq<Remote>, news: seq<Remote>, marked: array<bool>, ghost fit: map<nat, nat>, c: nat)
    returns (found: bool, ghost more: map<nat, nat>)
    requires c < |news| && c !in fit && Greedy(olds, news, marked[..], fit)
    requires forall k | k in fit :: M.Before(LocalFirst(news), k, c)
    modifies marked
    ensures found ==> Greedy(olds, news, marked[..], more) && more.Keys == fit.Keys + {c}
    ensures !found ==> M.Stuck(Suiting(olds, news), fit, c)
  {
    more := fit;
    var i := 0;
    while i < |olds|
      invariant 0 <= i <= |olds| && marked[..] == old(marked[..])
      invariant forall h: nat | h < i :: marked[h] || !Compatible(news[c], olds[h])
    {
      if !marked[i] && Compatible(news[c], olds[i]) {
        M.Serve(Suiting(olds, news), LocalFirst(news), fit, marked[..], c, i);
        marked[i] := true;
        more := fit[c := i];
        return true, more;
      }
      i := i + 1;
    }
    found := false;
    forall h: nat | Suiting(olds, news)(c, h) ensures exists k :: k in fit && fit[k] == h {
      assert marked[..][h];
    }
  }

  /** A request left without an old tunnel in its turn rules out every first-fit assignment, and
      if the old list is tidy every assignment. */
  lemma NoAssignment(olds: seq<Remote>, news: seq<Remote>, fit: map<nat, nat>, c: nat, b: seq<nat>)
    requires M.Fits(Suiting(olds, news), fit) && M.FirstFit(Suiting(olds, news), LocalFirst(news), fit)
    requires c < |news| && M.Stuck(Suiting(olds, news), fit, c)
    requires M.InTurn(LocalFirst(news), |news|, fit) && forall j | j in fit :: M.Before(LocalFirst(news), j, c)
    ensures !(Assignment(olds, news, b) && FirstFit(olds, news, b))
    ensures Tidy(olds) ==> !Assignment(olds, news, b)
  {
    var suits, first := Suiting(olds, news), LocalFirst(news);
    M.StuckNoFirstFit(suits, first, |news|, fit, c, b);
    if Tidy(olds) {
      StringsDecide(olds, news);
      TidyOrders(olds, news);
      if first(c) {
        M.StuckInFirstPass(suits, first, |news|, fit, c, b);
      } else {
        M.StuckInSecondPass(suits, first, |news|, fit, c, b);
      }
    }
  }

  /** Why the match fails: no first-fit assignment, and for a tidy old list no assignment. */
  ghost predicate Unmatched(olds: seq<Remote>, news: seq<Remote>) {
    && (forall b :: !(Assignment(olds, news, b) && FirstFit(olds, news, b)))
    && (Tidy(olds) ==> forall b :: !Assignment(olds, news, b))
  }

  lemma StuckUnmatched(olds: seq<Remote>, news: seq<Remote>, fit: map<nat, nat>, c: nat)
    requires M.Fits(Suiting(olds, news), fit) && M.FirstFit(Suiting(olds, news), LocalFirst(news), fit)
    requires c < |news| && M.Stuck(Suiting(olds, news), fit, c)
    requires M.InTurn(LocalFirst(news), |news|, fit) && forall j | j in fit :: M.Before(LocalFirst(news), j, c)
    ensures Unmatched(olds, news)
  {
    forall b
      ensures !(Assignment(olds, news, b) && FirstFit(olds, news, b))
      ensures Tidy(olds) ==> !Assignment(olds, news, b)
    {
      NoAssignment(olds, news, fit, c, b);
    }
  }

  /** Whoever is stuck in a pass is stuck in turn. */
  lemma LocalStuck(olds: seq<Remote>, news: seq<Remote>, marked: seq<bool>, fit: map<nat, nat>, c: nat)
    requires Greedy(olds, news, marked, fit) && M.Stuck(Suiting(olds, news), fit, c)
    requires c < |news| && LocalFirst(news)(c) && forall j: nat :: j in fit <==> j < c && LocalFirst(news)(j)
    ensures Unmatched(olds, news)
  {
    assert M.InTurn(LocalFirst(news), |news|, fit);
    StuckUnmatched(olds, news, fit, c);
  }

  lemma OtherStuck(olds: seq<Remote>, news: seq<Remote>, marked: seq<bool>, fit: map<nat, nat>, c: nat)
    requires Greedy(olds, news, marked, fit) && M.Stuck(Suiting(olds, news), fit, c)
    requires c < |news| && !LocalFirst(news)(c)
    requires forall j: nat :: j in fit <==> j < |news| && (j < c || LocalFirst(news)(j))
    ensures Unmatched(olds, news)
  {
    assert M.InTurn(LocalFirst(news), |news|, fit);
    StuckUnmatched(olds, news, fit, c);
  }

  /** First pass: remotes with a local address. */
  method MatchWithLocal(olds: seq<Remote>, news: seq<Remote>, marked: array<bool>)
    returns (ok: bool, ghost fit: map<nat, nat>)
    requires Greedy(olds, news, marked[..], map[])
    modifies marked
    ensures ok ==> Greedy(olds, news, marked[..], fit)
    ensures ok ==> forall j: nat :: j in fit <==> LocalFirst(news)(j)
    ensures !ok ==> Unmatched(olds, news)
  {
    fit := map[];
    for c := 0 to |news|
      invariant Greedy(olds, news, marked[..], fit)
      invariant forall j: nat :: j in fit <==> j < c && LocalFirst(news)(j)
    {
      if news[c].IsLocalSpecified() {
        ghost var more;
        ghost var seen := marked[..];
        ok, more := MarkFirst(olds, news, marked, fit, c);
        if !ok {
          LocalStuck(olds, news, seen, fit, c);
          return;
        }
        fit := more;
      }
    }
    ok := true;
  }

  /** Second pass: the other remotes take old tunnels on random ports. */
  method MatchWithoutLocal(olds: seq<Remote>, news: seq<Remote>, marked: array<bool>, ghost pass1: map<nat, nat>)
    returns (ok: bool, ghost fit: map<nat, nat>)
    requires Greedy(olds, news, marked[..], pass1)
    requires forall j: nat :: j in pass1 <==> LocalFirst(news)(j)
    modifies marked
    ensures ok ==> Greedy(olds, news, marked[..], fit)
    ensures ok ==> forall j: nat :: j in fit <==> j < |news|
    ensures !ok ==> Unmatched(olds, news)
  {
    fit := pass1;
    for c := 0 to |news|
      invariant Greedy(olds, news, marked[..], fit)
      invariant forall j: nat :: j in fit <==> j < |news| && (j < c || LocalFirst(news)(j))
    {
      if !news[c].IsLocalSpecified() {
        ghost var more;
        ghost var seen := marked[..];
        ok, more := MarkFirst(olds, news, marked, fit, c);
        if !ok {
          OtherStuck(olds, news, seen, fit, c);
          return;
        }
        fit := more;
      }
    }
    ok := true;
  }

  method Unmarked(olds: seq<Remote>, marked: array<bool>, ghost taken: set<nat>)
    returns (res: seq<Remote>, ghost from: seq<nat>)
    requires marked.Length == |olds|
    requires forall i: nat | i < |olds| :: marked[i] <==> i in taken
    ensures res == Leftovers(olds, taken, |olds|)
    ensures Copies(olds, taken, |olds|, from, res)
  {
    from := LeftoversFrom(olds, taken, |olds|);
    res := [];
    for i := 0 to |olds|
      invariant res == Leftovers(olds, taken, i)
    {
      if !marked[i] {
        var r := olds[i];
        if r.localPortRandom {
          r := r.(localHost := "", localPort := "");
        }
        res := res + [r];
      }
    }
  }

  lemma TooManyNew(olds: seq<Remote>, news: seq<Remote>)
    requires |news| > |olds|
    ensures Unmatched(olds, news)
  {
    forall b ensures !Assignment(olds, news, b) {
      M.TooManyRequests(Suiting(olds, news), |news|, |olds|, b);
    }
  }

  ghost function ListOf(fit: map<nat, nat>, m: nat): (a: seq<nat>)
    requires forall j: nat :: j in fit <==> j < m
    ensures |a| == m && M.AsMap(a) == fit
  {
    var a := seq(m, j requires 0 <= j < m => fit[j]);
    assert M.AsMap(a) == fit;
    a
  }

  /** An assignment, spelled out: each new remote has an old one of its own, one that prints as it
      does if it has a local end, and else one on a random port with its remote end and ACL. */
  lemma AssignmentMeans(olds: seq<Remote>, news: seq<Remote>, a: seq<nat>)
    ensures Assignment(olds, news, a) <==>
            && |a| == |news| && (forall j, k | 0 <= j < k < |a| :: a[j] != a[k])
            && forall j | 0 <= j < |a| ::
                 && a[j] < |olds|
                 && if news[j].localHost != "" && news[j].localPort != "" then news[j].String() == olds[a[j]].String()
                    else olds[a[j]].localPortRandom && news[j].Target() == olds[a[j]].Target() && news[j].acl == olds[a[j]].acl
  {
    if |a| == |news| {
      forall j: nat | j < |a|
        ensures Suiting(olds, news)(j, a[j]) <==>
                && a[j] < |olds|
                && if news[j].localHost != "" && news[j].localPort != "" then news[j].String() == olds[a[j]].String()
                   else olds[a[j]].localPortRandom && news[j].Target() == olds[a[j]].Target() && news[j].acl == olds[a[j]].acl
      {}
    }
  }

  /** On success `a` is the assignment that was made, and the k-th remote returned is a copy of the
      old one at `from[k]`. */
  method GetTunnelsToReestablish(olds: seq<Remote>, news: seq<Remote>)
    returns (res: Outcome, ghost a: seq<nat>, ghost from: seq<nat>)
    ensures res.Remaining? ==>
              Assignment(olds, news, a) && FirstFit(olds, news, a) &&
              res.remotes == Leftovers(olds, Range(a), |olds|)
    ensures res.Remaining? ==> Copies(olds, Range(a), |olds|, from, res.remotes)
    ensures res.Mismatch? <==> forall b :: !(Assignment(olds, news, b) && FirstFit(olds, news, b))
    ensures Tidy(olds) ==> (res.Mismatch? <==> forall b :: !Assignment(olds, news, b))
  {
    a, from := [], [];
    if |news| > |olds| {
      TooManyNew(olds, news);
      return Mismatch, a, from;
    }
    var marked := new bool[|olds|](_ => false);
    var ok;
    ghost var fit;
    ok, fit := MatchWithLocal(olds, news, marked);
    if !ok {
      return Mismatch, a, from;
    }
    ok, fit := MatchWithoutLocal(olds, news, marked, fit);
    if !ok {
      return Mismatch, a, from;
    }
    a := MadeAssignment(olds, news, marked[..], fit);
    var remaining;
    remaining, from := Unmarked(olds, marked, Range(a));
    res := Remaining(remaining);
  }

  lemma MadeAssignment(olds: seq<Remote>, news: seq<Remote>, marked: seq<bool>, fit: map<nat, nat>) returns (a: seq<nat>)
    requires Greedy(olds, news, marked, fit) && forall j: nat :: j in fit <==> j < |news|
    ensures Assignment(olds, news, a) && FirstFit(olds, news, a)
    ensures forall i: nat | i < |marked| :: marked[i] <==> i in Range(a)
  {
    a := ListOf(fit, |news|);
    MarksAreRange(marked, fit, a);
  }

  lemma MarksAreRange(marked: seq<bool>, fit: map<nat, nat>, a: seq<nat>)
    requires M.Marks(marked, fit) && M.AsMap(a) == fit
    ensures forall i: nat | i < |marked| :: marked[i] <==> i in Range(a)
  {
    forall i: nat | i < |marked| ensures marked[i] <==> i in Range(a) {
      if marked[i] {
        var k :| k in fit && fit[k] == i;
        assert k in M.AsMap(a) && a[k] == i;
      }
      if i in Range(a) {
        var k :| 0 <= k < |a| && a[k] == i;
        assert k in M.AsMap(a) && fit[k] == i;
      }
    }
  }

  /** There is only one first-fit assignment, so the returned list is a function of the inputs. */
  lemma OutcomeDetermined(olds: seq<Remote>, news: seq<Remote>, a: seq<nat>, b: seq<nat>)
    requires Assignment(olds, news, a) && FirstFit(olds, news, a)
    requires Assignment(olds, news, b) && FirstFit(olds, news, b)
    ensures a == b
  {
    M.FirstFitUnique(Suiting(olds, news), LocalFirst(news), |news|, a, b);
  }

  // ---- Nothing is lost, nothing is doubled ----

  /** How many of the remotes give service `s`. */
  function Count(rs: seq<Remote>, s: Service): nat {
    if rs == [] then 0 else Count(rs[..|rs| - 1], s) + One(rs[|rs| - 1], s)
  }

  function One(r: Remote, s: Service): nat { if ServiceOf(r) == s then 1 else 0 }

  lemma {:induction false} CountAppend(xs: seq<Remote>, ys: seq<Remote>, s: Service)
    ensures Count(xs + ys, s) == Count(xs, s) + Count(ys, s)
  {
    if ys == [] {
      assert xs + ys == xs;
    } else {
      CountAppend(xs, ys[..|ys| - 1], s);
      assert (xs + ys)[..|xs + ys| - 1] == xs + ys[..|ys| - 1];
    }
  }

  lemma CountStep(olds: seq<Remote>, taken: set<nat>, n: nat, s: Service)
    requires 0 < n <= |olds|
    ensures Count(Leftovers(olds, taken, n), s) ==
            Count(Leftovers(olds, taken, n - 1), s) + (if n - 1 in taken then 0 else One(olds[n - 1], s))
  {
    var front := Leftovers(olds, taken, n - 1);
    if n - 1 in taken {
      assert front + [] == front;
    } else {
      assert (front + [Blank(olds[n - 1])])[..|front|] == front;
    }
  }

  lemma {:induction false} LeftoversSize(olds: seq<Remote>, taken: set<nat>, n: nat)
    requires n <= |olds|
    ensures |Leftovers(olds, taken, n)| + |(set i | i in taken && i < n)| == n
  {
    if n > 0 {
      LeftoversSize(olds, taken, n - 1);
      assert (set i | i in taken && i < n) ==
             (set i | i in taken && i < n - 1) + (if n - 1 in taken then {n - 1} else {});
    } else {
      assert (set i | i in taken && i < n) == {};
    }
  }

  /** How many of the first `n` old tunnels outside `taken` give service `s`. */
  function FreeCount(olds: seq<Remote>, taken: set<nat>, n: nat, s: Service): nat
    requires n <= |olds|
  {
    if n == 0 then 0 else FreeCount(olds, taken, n - 1, s) + if n - 1 in taken then 0 else One(olds[n - 1], s)
  }

  lemma {:induction false} LeftoversCount(olds: seq<Remote>, taken: set<nat>, n: nat, s: Service)
    requires n <= |olds|
    ensures Count(Leftovers(olds, taken, n), s) == FreeCount(olds, taken, n, s)
  {
    if n > 0 {
      LeftoversCount(olds, taken, n - 1, s);
      CountStep(olds, taken, n, s);
    }
  }

  lemma {:induction false} OneLessFree(olds: seq<Remote>, taken: set<nat>, x: nat, n: nat, s: Service)
    requires x < |olds| && x !in taken && n <= |olds|
    ensures FreeCount(olds, taken, n, s) == FreeCount(olds, taken + {x}, n, s) + if x < n then One(olds[x], s) else 0
  {
    if n > 0 {
      OneLessFree(olds, taken, x, n - 1, s);
      assert n - 1 in taken + {x} <==> n - 1 in taken || n - 1 == x;
    }
  }

  /** Taking one more old tunnel takes its service out of the leftovers. */
  lemma TakeOneMore(olds: seq<Remote>, taken: set<nat>, x: nat, s: Service)
    requires x < |olds| && x !in taken
    ensures Count(Leftovers(olds, taken, |olds|), s) ==
            Count(Leftovers(olds, taken + {x}, |olds|), s) + One(olds[x], s)
  {
    LeftoversCount(olds, taken, |olds|, s);
    LeftoversCount(olds, taken + {x}, |olds|, s);
    OneLessFree(olds, taken, x, |olds|, s);
  }

  lemma {:induction false} NothingTaken(olds: seq<Remote>, n: nat, s: Service)
    requires n <= |olds|
    ensures Count(Leftovers(olds, {}, n), s) == Count(olds[..n], s)
  {
    if n > 0 {
      NothingTaken(olds, n - 1, s);
      var front := Leftovers(olds, {}, n - 1);
      assert (front + [Blank(olds[n - 1])])[..|front|] == front;
      assert olds[..n][..n - 1] == olds[..n - 1];
    }
  }

  lemma CompatibleSameService(n: Remote, o: Remote)
    requires WellFormed(n) && WellFormed(o) && Compatible(n, o)
    ensures ServiceOf(n) == ServiceOf(o)
  {
    StringInjective(n, o);
  }

  lemma RangeStep(a: seq<nat>, j: nat)
    requires 0 < j <= |a|
    ensures Range(a[..j]) == Range(a[..j - 1]) + {a[j - 1]}
  {
    forall k | 0 <= k < j ensures a[k] in Range(a[..j]) { assert a[..j][k] == a[k]; }
    forall k | 0 <= k < j - 1 ensures a[k] in Range(a[..j - 1]) { assert a[..j - 1][k] == a[k]; }
  }

  lemma ConserveStep(olds: seq<Remote>, news: seq<Remote>, a: seq<nat>, j: nat, s: Service)
    requires Assignment(olds, news, a) && j < |news|
    requires a[j] < |olds| && ServiceOf(news[j]) == ServiceOf(olds[a[j]])
    ensures Count(news[..j + 1], s) + Count(Leftovers(olds, Range(a[..j + 1]), |olds|), s) ==
            Count(news[..j], s) + Count(Leftovers(olds, Range(a[..j]), |olds|), s)
  {
    RangeStep(a, j + 1);
    NotYetTaken(olds, news, a, j);
    TakeOneMore(olds, Range(a[..j]), a[j], s);
    CountServed(olds, news, a[j], j, s);
  }

  lemma {:induction false} ConservedUpTo(olds: seq<Remote>, news: seq<Remote>, a: seq<nat>, j: nat, s: Service)
    requires Assignment(olds, news, a) && j <= |news|
    requires forall r | r in olds || r in news :: WellFormed(r)
    ensures Count(news[..j], s) + Count(Leftovers(olds, Range(a[..j]), |olds|), s) == Count(olds, s)
  {
    if j == 0 {
      assert Range(a[..0]) == {} && olds[..|olds|] == olds;
      NothingTaken(olds, |olds|, s);
    } else {
      ConservedUpTo(olds, news, a, j - 1, s);
      NewServesOld(olds, news, a, j - 1);
      ConserveStep(olds, news, a, j - 1, s);
    }
  }

  lemma NotYetTaken(olds: seq<Remote>, news: seq<Remote>, a: seq<nat>, j: nat)
    requires Assignment(olds, news, a) && j < |news|
    ensures a[j] < |olds| && a[j] !in Range(a[..j])
  {
    assert Suiting(olds, news)(j, a[j]);
  }

  lemma CountOneMore(rs: seq<Remote>, r: Remote, s: Service)
    ensures Count(rs + [r], s) == Count(rs, s) + One(r, s)
  {
    var all := rs + [r];
    assert all[..|all| - 1] == rs && all[|all| - 1] == r;
  }

  lemma NewServesOld(olds: seq<Remote>, news: seq<Remote>, a: seq<nat>, j: nat)
    requires Assignment(olds, news, a) && j < |news|
    requires forall r | r in olds || r in news :: WellFormed(r)
    ensures a[j] < |olds| && ServiceOf(news[j]) == ServiceOf(olds[a[j]])
  {
    assert Suiting(olds, news)(j, a[j]);
    CompatibleSameService(news[j], olds[a[j]]);
  }

  lemma CountServed(olds: seq<Remote>, news: seq<Remote>, i: nat, j: nat, s: Service)
    requires j < |news| && i < |olds| && ServiceOf(news[j]) == ServiceOf(olds[i])
    ensures Count(news[..j + 1], s) == Count(news[..j], s) + One(olds[i], s)
  {
    CountOneMore(news[..j], news[j], s);
    assert news[..j + 1] == news[..j] + [news[j]];
  }

  lemma {:induction false} RangeSize(olds: seq<Remote>, news: seq<Remote>, a: seq<nat>, j: nat)
    requires Assignment(olds, news, a) && j <= |a|
    ensures |Range(a[..j])| == j && forall i | i in Range(a[..j]) :: i < |olds|
  {
    if j > 0 {
      RangeSize(olds, news, a, j - 1);
      RangeStep(a, j);
      NotYetTaken(olds, news, a, j - 1);
    } else {
      assert Range(a[..0]) == {};
    }
  }

  /** A successful match conserves the services: the new remotes and the ones returned serve,
      together and counted, exactly what the old tunnels served. */
  lemma ServicesConserved(olds: seq<Remote>, news: seq<Remote>, a: seq<nat>, s: Service)
    requires Assignment(olds, news, a)
    requires forall r | r in olds || r in news :: WellFormed(r)
    ensures var back := Leftovers(olds, Range(a), |olds|);
            Count(news + back, s) == Count(olds, s) && |back| == |olds| - |news|
  {
    ConservedUpTo(olds, news, a, |news|, s);
    assert a[..|news|] == a && news[..|news|] == news;
    CountAppend(news, Leftovers(olds, Range(a), |olds|), s);
    LeftoversSize(olds, Range(a), |olds|);
    RangeSize(olds, news, a, |a|);
    assert (set i | i in Range(a) && i < |olds|) == Range(a);
  }

  /** A returned copy: the remote itself if its port is not random; otherwise with the local host
      and port empty, and all else as it was. */
  ghost predicate CopyOf(r: Remote, o: Remote) {
    && (!o.localPortRandom ==> r == o)
    && (o.localPortRandom ==>
          r.localHost == "" && r.localPort == "" && r.localPortRandom &&
          r.remoteHost == o.remoteHost && r.remotePort == o.remotePort && r.scheme == o.scheme && r.acl == o.acl &&
          r.idleTimeoutMinutes == o.idleTimeoutMinutes)
  }

  lemma BlankIsCopy(r: Remote, o: Remote)
    ensures CopyOf(r, o) <==> r == Blank(o)
  {}

  /** The returned remotes are exactly the copies of the untaken old ones. */
  lemma {:induction false} LeftoverOrigin(olds: seq<Remote>, taken: set<nat>, n: nat, r: Remote)
    requires n <= |olds|
    ensures r in Leftovers(olds, taken, n) <==> exists i: nat | i < n && i !in taken :: CopyOf(r, olds[i])
  {
    if n > 0 {
      LeftoverOrigin(olds, taken, n - 1, r);
      BlankIsCopy(r, olds[n - 1]);
    }
  }

  /** `rs` are copies of the old tunnels at `from`: in order, all those below `n` that are not
      taken, and no others. */
  ghost predicate Copies(olds: seq<Remote>, taken: set<nat>, n: nat, from: seq<nat>, rs: seq<Remote>) {
    && n <= |olds| && |from| == |rs|
    && (forall k | 0 <= k < |from| :: from[k] < n && from[k] !in taken && CopyOf(rs[k], olds[from[k]]))
    && (forall h, k | 0 <= h < k < |from| :: from[h] < from[k])
    && (forall i: nat | i < n && i !in taken :: i in from)
  }

  lemma CopyOneMore(olds: seq<Remote>, taken: set<nat>, n: nat, from: seq<nat>, rs: seq<Remote>, r: Remote)
    requires Copies(olds, taken, n, from, rs) && n < |olds| && n !in taken && CopyOf(r, olds[n])
    ensures Copies(olds, taken, n + 1, from + [n], rs + [r])
  {}

  lemma CopyNoMore(olds: seq<Remote>, taken: set<nat>, n: nat, from: seq<nat>, rs: seq<Remote>)
    requires Copies(olds, taken, n, from, rs) && n < |olds| && n in taken
    ensures Copies(olds, taken, n + 1, from, rs)
  {}

  /** Which old tunnels are returned, in order. */
  lemma {:induction false} LeftoversFrom(olds: seq<Remote>, taken: set<nat>, n: nat) returns (from: seq<nat>)
    requires n <= |olds|
    ensures Copies(olds, taken, n, from, Leftovers(olds, taken, n))
  {
    if n == 0 {
      from := [];
    } else {
      var before := LeftoversFrom(olds, taken, n - 1);
      LeftoversStep(olds, taken, n);
      if n - 1 in taken {
        CopyNoMore(olds, taken, n - 1, before, Leftovers(olds, taken, n - 1));
        from := before;
      } else {
        BlankIsCopy(Blank(olds[n - 1]), olds[n - 1]);
        CopyOneMore(olds, taken, n - 1, before, Leftovers(olds, taken, n - 1), Blank(olds[n - 1]));
        from := before + [n - 1];
      }
    }
  }

  lemma LeftoversStep(olds: seq<Remote>, taken: set<nat>, n: nat)
    requires 0 < n <= |olds|
    ensures Leftovers(olds, taken, n) ==
            if n - 1 in taken then Leftovers(olds, taken, n - 1)
            else Leftovers(olds, taken, n - 1) + [Blank(olds[n - 1])]
  {
    assert Leftovers(olds, taken, n - 1) + [] == Leftovers(olds, taken, n - 1);
  }
}
