/** For which old tunnels the two greedy passes find an assignment whenever there is one. */
module Completeness {
  import opened Remotes
  import opened Reestablish
  import M = Matching
  import Sets

  /** The passes succeed if they can. */
  ghost predicate Complete(olds: seq<Remote>, news: seq<Remote>) {
    (exists a :: Assignment(olds, news, a)) ==> exists a :: Assignment(olds, news, a) && FirstFit(olds, news, a)
  }

  // ---- Tidy lists ----

  /** The passes make a first-fit assignment, or a tidy list admits none at all. */
  lemma GreedyDecides(olds: seq<Remote>, news: seq<Remote>)
    ensures (exists a :: Assignment(olds, news, a) && FirstFit(olds, news, a)) ||
            (Tidy(olds) ==> forall b :: !Assignment(olds, news, b))
  {
    var suits, first := Suiting(olds, news), LocalFirst(news);
    var fit, c := M.Greedily(suits, first, |news|, |olds|);
    if c < |news| {
      if Tidy(olds) {
        forall b ensures !Assignment(olds, news, b) {
          StuckNone(olds, news, fit, c, b);
        }
      }
    } else {
      var a := ListOf(fit, |news|);
      ListedFits(olds, news, fit, a);
    }
  }

  lemma StuckNone(olds: seq<Remote>, news: seq<Remote>, fit: map<nat, nat>, c: nat, b: seq<nat>)
    requires Tidy(olds) && c < |news| && M.Stuck(Suiting(olds, news), fit, c)
    requires M.Fits(Suiting(olds, news), fit) && M.FirstFit(Suiting(olds, news), LocalFirst(news), fit)
    requires forall j | j in fit :: j < |news| && M.Before(LocalFirst(news), j, c)
    ensures !Assignment(olds, news, b)
  {
    StringsDecide(olds, news);
    TidyOrders(olds, news);
    if LocalFirst(news)(c) {
      M.StuckInFirstPass(Suiting(olds, news), LocalFirst(news), |news|, fit, c, b);
    } else {
      M.StuckInSecondPass(Suiting(olds, news), LocalFirst(news), |news|, fit, c, b);
    }
  }

  lemma ListedFits(olds: seq<Remote>, news: seq<Remote>, fit: map<nat, nat>, a: seq<nat>)
    requires M.Fits(Suiting(olds, news), fit) && M.FirstFit(Suiting(olds, news), LocalFirst(news), fit)
    requires |a| == |news| && M.AsMap(a) == fit
    ensures Assignment(olds, news, a) && FirstFit(olds, news, a)
  {
    forall j: nat | j < |news| ensures Suiting(olds, news)(j, a[j]) {
      assert j in fit && fit[j] == a[j];
    }
    forall j: nat, k: nat | j < k < |news| ensures a[j] != a[k] {
      assert j in fit && k in fit;
    }
  }

  // ---- Untidy lists ----

  /** The old tunnels that print as `text`. */
  ghost function Alike(olds: seq<Remote>, text: string): set<nat> {
    set k: nat | k < |olds| && olds[k].String() == text
  }

  /** The old tunnels on random ports for service `s`. */
  ghost function RandomFor(olds: seq<Remote>, s: Service): set<nat> {
    set k: nat | k < |olds| && olds[k].localPortRandom && ServiceOf(olds[k]) == s
  }

  /** `t` times `x` and then `r` times `o`. */
  ghost function Request(x: Remote, t: nat, o: Remote, r: nat): (news: seq<Remote>)
    ensures |news| == t + r
    ensures forall k | 0 <= k < t :: news[k] == x
    ensures forall k | t <= k < t + r :: news[k] == o
  {
    seq(t, _ => x) + seq(r, _ => o)
  }

  /** `x` has a local end and suits what prints alike; `o` has none and suits what is on a random
      port for its service. */
  ghost predicate Asks(olds: seq<Remote>, x: Remote, o: Remote, alike: set<nat>, random: set<nat>) {
    && x.IsLocalSpecified() && !o.IsLocalSpecified()
    && (forall k: nat :: k in alike <==> k < |olds| && Compatible(x, olds[k]))
    && (forall k: nat :: k in random <==> k < |olds| && Compatible(o, olds[k]))
  }

  lemma RequestSuits(olds: seq<Remote>, x: Remote, t: nat, o: Remote, r: nat, alike: set<nat>, random: set<nat>, j: nat, i: nat)
    requires Asks(olds, x, o, alike, random)
    ensures var news := Request(x, t, o, r);
            && (Suiting(olds, news)(j, i) <==> if j < t then i in alike else j < t + r && i in random)
            && (LocalFirst(news)(j) <==> j < t)
  {}

  /** `t` members of `alike` and then members of `random`, all different. */
  ghost predicate Split(a: seq<nat>, t: nat, alike: set<nat>, random: set<nat>) {
    && Sets.Distinct(a)
    && (forall j | 0 <= j < t && j < |a| :: a[j] in alike)
    && (forall j | t <= j < |a| :: a[j] in random)
  }

  /** The assignments for such a request. */
  lemma AssignmentsSplit(olds: seq<Remote>, x: Remote, t: nat, o: Remote, r: nat, alike: set<nat>, random: set<nat>, a: seq<nat>)
    requires Asks(olds, x, o, alike, random)
    ensures Assignment(olds, Request(x, t, o, r), a) <==> |a| == t + r && Split(a, t, alike, random)
  {
    var news := Request(x, t, o, r);
    if |a| == t + r {
      forall j: nat | j < t + r
        ensures Suiting(olds, news)(j, a[j]) <==> if j < t then a[j] in alike else a[j] in random
      {
        RequestSuits(olds, x, t, o, r, alike, random, j, a[j]);
      }
    }
  }

  lemma JoinSplit(xs: seq<nat>, h: nat, os: seq<nat>, before: set<nat>, alike: set<nat>, random: set<nat>)
    requires Sets.Distinct(xs) && Sets.Distinct(os)
    requires (forall i | 0 <= i < |xs| :: xs[i] in before) && (forall i | 0 <= i < |os| :: os[i] in random)
    requires before <= alike && before !! random && h in alike && h !in before && h !in random
    ensures Split(xs + [h] + os, |xs| + 1, alike, random)
  {
    var a, t := xs + [h] + os, |xs| + 1;
    forall j | 0 <= j < |a| ensures if j < t then a[j] in before + {h} else a[j] in random && a[j] == os[j - t] {}
    forall j, k | 0 <= j < k < |a| ensures a[j] != a[k] {
      if k < t {
        assert a[j] == xs[j];
      } else if j >= t {
        assert os[j - t] != os[k - t];
      }
    }
  }

  /** There is an assignment that sends the requests for `x` to the members of `before` and to `h`,
      and the requests for `o` to all of `random`. */
  lemma UntidyAssignment(olds: seq<Remote>, x: Remote, o: Remote, alike: set<nat>, random: set<nat>, before: set<nat>, h: nat)
    returns (a: seq<nat>)
    requires Asks(olds, x, o, alike, random)
    requires before <= alike && before !! random && h in alike && h !in before && h !in random
    ensures Assignment(olds, Request(x, |before| + 1, o, |random|), a)
  {
    var xs := Sets.Enumerate(before);
    var os := Sets.Enumerate(random);
    a := xs + [h] + os;
    JoinSplit(xs, h, os, before, alike, random);
    AssignmentsSplit(olds, x, |before| + 1, o, |random|, alike, random, a);
  }

  /** What `before` is to the least offer `i` that suits both kinds of requests. */
  ghost predicate Front(alike: set<nat>, random: set<nat>, before: set<nat>, i: nat) {
    i in alike && i in random && forall k: nat :: k in before <==> k in alike && k < i
  }

  /** Not all requests for `x` can be served from `before`. */
  lemma SomeNotBefore(alike: set<nat>, random: set<nat>, before: set<nat>, i: nat, b: seq<nat>)
    requires Front(alike, random, before, i) && Split(b, |before| + 1, alike, random) && |before| < |b|
    ensures exists m: nat :: m <= |before| && b[m] >= i
  {
    var t := |before| + 1;
    if forall m: nat | m < t :: b[m] < i {
      M.InjectionSize(M.AsMap(b), Sets.UpTo(t), before);
    }
  }

  /** With `i` taken there are not offers enough for the requests for `o`. */
  lemma TooFew(alike: set<nat>, random: set<nat>, t: nat, b: seq<nat>, m: nat)
    requires Split(b, t, alike, random) && |b| == t + |random| && m < t
    ensures b[m] !in random
  {
    if b[m] in random {
      var rest := Sets.UpTo(|b|) - Sets.UpTo(t);
      assert Sets.UpTo(|b|) * Sets.UpTo(t) == Sets.UpTo(t);
      assert |rest| == |random|;
      M.InjectionSize(M.AsMap(b), rest, random - {b[m]});
    }
  }

  /** First fit serves the requests for `x` from the front, and one of them takes `i`. */
  lemma FirstIsTaken(olds: seq<Remote>, x: Remote, o: Remote, alike: set<nat>, random: set<nat>, before: set<nat>, i: nat,
                     b: seq<nat>)
    returns (m: nat)
    requires Asks(olds, x, o, alike, random) && Front(alike, random, before, i)
    requires Assignment(olds, Request(x, |before| + 1, o, |random|), b)
    requires FirstFit(olds, Request(x, |before| + 1, o, |random|), b)
    ensures m <= |before| && b[m] == i
  {
    var t, r := |before| + 1, |random|;
    var news := Request(x, t, o, r);
    AssignmentsSplit(olds, x, t, o, r, alike, random, b);
    SomeNotBefore(alike, random, before, i, b);
    m :| m <= |before| && b[m] >= i;
    if b[m] > i {
      RequestSuits(olds, x, t, o, r, alike, random, m, i);
      var k := M.EarlierTaker(Suiting(olds, news), LocalFirst(news), |news|, b, m, i);
      RequestSuits(olds, x, t, o, r, alike, random, k, i);
      m := k;
    }
  }

  lemma UntidyMisses(olds: seq<Remote>, x: Remote, o: Remote, alike: set<nat>, random: set<nat>, before: set<nat>, i: nat,
                     b: seq<nat>)
    requires Asks(olds, x, o, alike, random) && Front(alike, random, before, i)
    ensures var news := Request(x, |before| + 1, o, |random|);
            !(Assignment(olds, news, b) && FirstFit(olds, news, b))
  {
    var t, r := |before| + 1, |random|;
    var news := Request(x, t, o, r);
    if Assignment(olds, news, b) && FirstFit(olds, news, b) {
      var m := FirstIsTaken(olds, x, o, alike, random, before, i, b);
      AssignmentsSplit(olds, x, t, o, r, alike, random, b);
      TooFew(alike, random, t, b, m);
    }
  }

  /** A request that has an assignment and no first-fit one, given offers for it in the wrong order. */
  lemma WrongOrder(olds: seq<Remote>, x: Remote, o: Remote, alike: set<nat>, random: set<nat>, i: nat, h: nat)
    returns (news: seq<Remote>)
    requires Asks(olds, x, o, alike, random)
    requires i in alike && i in random && h in alike && h !in random && i < h
    ensures !Complete(olds, news)
  {
    assert i in alike * random;
    var least := Sets.Least(alike * random);
    var before := set k | k in alike && k < least;
    assert least in alike * random && Front(alike, random, before, least);
    forall k | k in before ensures k !in random {
      assert k in alike * random <==> k in random;
    }
    var a := UntidyAssignment(olds, x, o, alike, random, before, h);
    news := Request(x, |before| + 1, o, |random|);
    forall b ensures !(Assignment(olds, news, b) && FirstFit(olds, news, b)) {
      UntidyMisses(olds, x, o, alike, random, before, least, b);
    }
  }

  lemma AsksFor(olds: seq<Remote>, x: Remote, o: Remote)
    requires x.IsLocalSpecified() && !o.IsLocalSpecified()
    ensures Asks(olds, x, o, Alike(olds, x.String()), RandomFor(olds, ServiceOf(o)))
  {
    forall k: nat | k < |olds|
      ensures Compatible(o, olds[k]) <==> olds[k].localPortRandom && ServiceOf(olds[k]) == ServiceOf(o)
    {}
  }

  lemma UntidyIncomplete(olds: seq<Remote>) returns (news: seq<Remote>)
    requires !Tidy(olds)
    ensures !Complete(olds, news)
  {
    var i, h :| 0 <= i < h < |olds| && olds[i].String() == olds[h].String() && olds[i].localPortRandom &&
                PrintsLocal(olds[i].String()) &&
                !(olds[h].localPortRandom && ServiceOf(olds[h]) == ServiceOf(olds[i]));
    var x: Remote :| x.IsLocalSpecified() && x.String() == olds[i].String();
    var o := olds[i].(localHost := "", localPort := "");
    assert ServiceOf(o) == ServiceOf(olds[i]);
    AsksFor(olds, x, o);
    news := WrongOrder(olds, x, o, Alike(olds, x.String()), RandomFor(olds, ServiceOf(o)), i, h);
  }

  /** The two passes find an assignment for every request that has one exactly when the list of old
      tunnels is tidy. */
  lemma CompleteExactlyWhen(olds: seq<Remote>)
    ensures (forall news :: Complete(olds, news)) <==> Tidy(olds)
  {
    if Tidy(olds) {
      forall news ensures Complete(olds, news) { GreedyDecides(olds, news); }
    } else {
      var news := UntidyIncomplete(olds);
    }
  }
}
