/** Greedy matching of requests against offers, given only which offer suits which request:
    the combinatorial core of re-establishing tunnels. Requests are handled in two passes,
    the ones marked `first` before the rest; each takes the first suitable offer left. */
module Matching {
  import Sets

  /** `suits(j, i)`: offer `i` suits request `j`. */
  type Suits = (nat, nat) -> bool

  /** An injective choice of a suitable offer for each of the `m` requests. */
  ghost predicate Assignment(suits: Suits, m: nat, a: seq<nat>) {
    && |a| == m
    && (forall j: nat | j < m :: suits(j, a[j]))
    && (forall j: nat, k: nat | j < k < m :: a[j] != a[k])
  }

  /** `k` is handled before `j`. */
  predicate Before(first: nat -> bool, k: nat, j: nat) {
    if first(j) then first(k) && k < j else first(k) || k < j
  }

  /** A matching of some of the requests. */
  ghost predicate Fits(suits: Suits, fit: map<nat, nat>) {
    && (forall j | j in fit :: suits(j, fit[j]))
    && (forall j, k | j in fit && k in fit && j != k :: fit[j] != fit[k])
  }

  /** Offer `i` went to a request handled before `j`. */
  ghost predicate TakenBefore(first: nat -> bool, fit: map<nat, nat>, i: nat, j: nat) {
    exists k :: k in fit && fit[k] == i && Before(first, k, j)
  }

  /** Every request got the first suitable offer still free at its turn. */
  ghost predicate FirstFit(suits: Suits, first: nat -> bool, fit: map<nat, nat>) {
    forall j, i: nat | j in fit && i < fit[j] && suits(j, i) :: TakenBefore(first, fit, i, j)
  }

  ghost predicate Marks(marked: seq<bool>, fit: map<nat, nat>) {
    && (forall k | k in fit :: fit[k] < |marked| && marked[fit[k]])
    && (forall i: nat | i < |marked| && marked[i] :: exists k :: k in fit && fit[k] == i)
  }

  lemma ServeFirstFit(suits: Suits, first: nat -> bool, fit: map<nat, nat>, marked: seq<bool>, j: nat, i: nat)
    requires FirstFit(suits, first, fit) && Marks(marked, fit)
    requires j !in fit && i < |marked| && forall k | k in fit :: Before(first, k, j)
    requires forall h: nat | h < i :: marked[h] || !suits(j, h)
    ensures FirstFit(suits, first, fit[j := i])
  {
    var ext := fit[j := i];
    forall k, h: nat | k in ext && h < ext[k] && suits(k, h) ensures TakenBefore(first, ext, h, k) {
      if k == j {
        var w :| w in fit && fit[w] == h;
        assert w in ext && ext[w] == h && Before(first, w, j);
      } else {
        assert TakenBefore(first, fit, h, k);
        var w :| w in fit && fit[w] == h && Before(first, w, k);
        assert w in ext && ext[w] == h;
      }
    }
  }

  lemma ServeMarks(fit: map<nat, nat>, marked: seq<bool>, j: nat, i: nat)
    requires Marks(marked, fit) && j !in fit && i < |marked|
    ensures Marks(marked[i := true], fit[j := i])
  {
    var ext, after := fit[j := i], marked[i := true];
    forall h: nat | h < |after| && after[h] ensures exists k :: k in ext && ext[k] == h {
      if h == i {
        assert j in ext && ext[j] == i;
      } else {
        var w :| w in fit && fit[w] == h;
        assert w in ext && ext[w] == h;
      }
    }
  }

  /** Serving one more request keeps the matching greedy. */
  lemma Serve(suits: Suits, first: nat -> bool, fit: map<nat, nat>, marked: seq<bool>, j: nat, i: nat)
    requires Fits(suits, fit) && FirstFit(suits, first, fit) && Marks(marked, fit)
    requires j !in fit && i < |marked| && !marked[i] && suits(j, i)
    requires forall k | k in fit :: Before(first, k, j)
    requires forall h: nat | h < i :: marked[h] || !suits(j, h)
    ensures Fits(suits, fit[j := i]) && FirstFit(suits, first, fit[j := i])
    ensures Marks(marked[i := true], fit[j := i])
  {
    ServeFirstFit(suits, first, fit, marked, j, i);
    ServeMarks(fit, marked, j, i);
  }

  // ---- Pigeonhole ----

  lemma {:induction false} InjectionSize(f: map<nat, nat>, S: set<nat>, T: set<nat>)
    requires S <= f.Keys
    requires forall x | x in S :: f[x] in T
    requires forall x, y | x in S && y in S && x != y :: f[x] != f[y]
    ensures |S| <= |T|
  {
    if S != {} {
      var x :| x in S;
      InjectionSize(f, S - {x}, T - {f[x]});
    }
  }

  ghost function AsMap(a: seq<nat>): map<nat, nat> { map j: nat | j < |a| :: a[j] }

  lemma TooManyRequests(suits: Suits, m: nat, n: nat, b: seq<nat>)
    requires m > n
    requires forall j: nat, i: nat | suits(j, i) :: i < n
    ensures !Assignment(suits, m, b)
  {
    if Assignment(suits, m, b) {
      InjectionSize(AsMap(b), Sets.UpTo(m), Sets.UpTo(n));
    }
  }

  // ---- Why greedy failure means there is no assignment ----

  /** Two requests of the first pass that share a suitable offer share them all. */
  ghost predicate FirstClasses(suits: Suits, first: nat -> bool) {
    forall j: nat, k: nat, i: nat, h: nat |
      first(j) && first(k) && suits(j, i) && suits(k, i) && suits(j, h) :: suits(k, h)
  }

  /** Of the offers that suit a request of the first pass, the ones that suit some request of the
      second pass come last. */
  ghost predicate Ordered(suits: Suits, first: nat -> bool) {
    forall j: nat, c: nat, i: nat, h: nat |
      first(j) && !first(c) && suits(j, i) && suits(c, i) && suits(j, h) && i < h :: suits(c, h)
  }

  /** Two requests of the second pass that share a suitable offer share them all. */
  ghost predicate Classes(suits: Suits, first: nat -> bool) {
    forall j: nat, k: nat, i: nat, h: nat |
      !first(j) && !first(k) && suits(j, i) && suits(k, i) && suits(j, h) :: suits(k, h)
  }

  /** Nothing is left for request `c`. */
  ghost predicate Stuck(suits: Suits, fit: map<nat, nat>, c: nat) {
    c !in fit && forall i: nat | suits(c, i) :: exists k :: k in fit && fit[k] == i
  }

  ghost predicate HeldBy(fit: map<nat, nat>, K: set<nat>, i: nat) {
    exists j :: j in K && j in fit && fit[j] == i
  }

  ghost function Holder(fit: map<nat, nat>, K: set<nat>, i: nat): (j: nat)
    requires HeldBy(fit, K, i)
    ensures j in K && j in fit && fit[j] == i
  {
    var j :| j in K && j in fit && fit[j] == i; j
  }

  /** Requests sent apart to offers that `K` holds are no more than `K`. */
  lemma HoldersEnough(fit: map<nat, nat>, K: set<nat>, S: set<nat>, b: map<nat, nat>)
    requires S <= b.Keys
    requires forall x, y | x in b && y in b && x != y :: b[x] != b[y]
    requires forall k | k in S :: HeldBy(fit, K, b[k])
    ensures |S| <= |K|
  {
    var h := map k | k in S :: Holder(fit, K, b[k]);
    forall x, y | x in S && y in S && x != y ensures h[x] != h[y] {
      assert fit[h[x]] == b[x] && fit[h[y]] == b[y];
    }
    InjectionSize(h, S, K);
  }

  /** The members of `K` and one more cannot all be sent, apart, to what `K` holds. */
  lemma NoRoom(fit: map<nat, nat>, K: set<nat>, c: nat, b: map<nat, nat>)
    requires c !in K && K + {c} <= b.Keys
    requires forall x, y | x in b && y in b && x != y :: b[x] != b[y]
    ensures exists k :: k in b && k in K + {c} && !HeldBy(fit, K, b[k])
  {
    var S := K + {c};
    assert |S| == |K| + 1;
    if forall k | k in S :: HeldBy(fit, K, b[k]) {
      HoldersEnough(fit, K, S, b);
    }
  }

  ghost function Takers(suits: Suits, fit: map<nat, nat>, c: nat): set<nat> {
    set j | j in fit && suits(c, fit[j])
  }

  /** What suits a request of the first pass, or one of its takers, a taker holds. */
  lemma TakersUseUp(suits: Suits, first: nat -> bool, fit: map<nat, nat>, c: nat, k: nat, h: nat)
    requires FirstClasses(suits, first) && Fits(suits, fit) && Stuck(suits, fit, c)
    requires first(c) && forall j | j in fit :: first(j)
    requires (k == c || k in Takers(suits, fit, c)) && suits(k, h)
    ensures HeldBy(fit, Takers(suits, fit, c), h)
  {
    assert suits(c, h) by {
      assert k != c ==> suits(k, fit[k]) && suits(c, fit[k]);
    }
    var j :| j in fit && fit[j] == h;
    assert j in Takers(suits, fit, c);
  }

  lemma StuckInFirstPass(suits: Suits, first: nat -> bool, m: nat, fit: map<nat, nat>, c: nat, b: seq<nat>)
    requires FirstClasses(suits, first) && Fits(suits, fit) && Stuck(suits, fit, c)
    requires c < m && first(c) && forall j | j in fit :: j < m && first(j)
    ensures !Assignment(suits, m, b)
  {
    if Assignment(suits, m, b) {
      var K := Takers(suits, fit, c);
      NoRoom(fit, K, c, AsMap(b));
      var k :| k in AsMap(b) && k in K + {c} && !HeldBy(fit, K, b[k]);
      TakersUseUp(suits, first, fit, c, k, b[k]);
    }
  }

  /** The requests already served in the second pass with an offer that suits `c`, and those of the
      first pass that could have had an offer that went to the first pass and suits `c`. */
  ghost function Rivals(suits: Suits, first: nat -> bool, fit: map<nat, nat>, c: nat): set<nat> {
    set j | j in fit && if first(j) then Ally(suits, first, fit, c, j) else suits(c, fit[j])
  }

  ghost predicate Ally(suits: Suits, first: nat -> bool, fit: map<nat, nat>, c: nat, j: nat) {
    exists k :: k in fit && first(k) && suits(c, fit[k]) && suits(j, fit[k])
  }

  /** Who holds an offer that suits `c` is a rival. */
  lemma HolderIsRival(suits: Suits, first: nat -> bool, fit: map<nat, nat>, c: nat, i: nat)
    requires Fits(suits, fit) && Stuck(suits, fit, c) && suits(c, i)
    ensures HeldBy(fit, Rivals(suits, first, fit, c), i)
  {
    var j :| j in fit && fit[j] == i;
    assert suits(j, fit[j]);
    assert j in Rivals(suits, first, fit, c);
  }

  /** Wherever an assignment sends a rival of the first pass, a rival is. */
  lemma AllyIsHeld(suits: Suits, first: nat -> bool, fit: map<nat, nat>, c: nat, j: nat, h: nat)
    requires FirstClasses(suits, first) && Ordered(suits, first) && !first(c)
    requires Fits(suits, fit) && FirstFit(suits, first, fit) && Stuck(suits, fit, c)
    requires j in fit && first(j) && Ally(suits, first, fit, c, j) && suits(j, h)
    ensures HeldBy(fit, Rivals(suits, first, fit, c), h)
  {
    var k :| k in fit && first(k) && suits(c, fit[k]) && suits(j, fit[k]);
    assert suits(k, fit[k]) && suits(k, h);
    if fit[k] <= h {
      assert suits(c, h);
      HolderIsRival(suits, first, fit, c, h);
    } else {
      assert TakenBefore(first, fit, h, k);
      var l :| l in fit && fit[l] == h && Before(first, l, k);
      assert first(l) && suits(l, fit[l]) && suits(l, fit[k]);
      assert l in Rivals(suits, first, fit, c);
    }
  }

  lemma StuckInSecondPass(suits: Suits, first: nat -> bool, m: nat, fit: map<nat, nat>, c: nat, b: seq<nat>)
    requires FirstClasses(suits, first) && Classes(suits, first) && Ordered(suits, first)
    requires Fits(suits, fit) && FirstFit(suits, first, fit) && Stuck(suits, fit, c)
    requires c < m && !first(c) && forall j | j in fit :: j < m
    ensures !Assignment(suits, m, b)
  {
    if Assignment(suits, m, b) {
      var K := Rivals(suits, first, fit, c);
      NoRoom(fit, K, c, AsMap(b));
      var k :| k in AsMap(b) && k in K + {c} && !HeldBy(fit, K, b[k]);
      assert suits(k, b[k]);
      if k != c && first(k) {
        AllyIsHeld(suits, first, fit, c, k, b[k]);
      } else {
        assert suits(c, b[k]) by {
          assert k != c ==> suits(k, fit[k]) && suits(c, fit[k]);
        }
        HolderIsRival(suits, first, fit, c, b[k]);
      }
    }
  }

  // ---- The greedy choice is determined ----

  function Turn(first: nat -> bool, m: nat, j: nat): nat { if first(j) then j else m + j }

  lemma EarlierTaker(suits: Suits, first: nat -> bool, m: nat, a: seq<nat>, j: nat, i: nat) returns (k: nat)
    requires Assignment(suits, m, a) && FirstFit(suits, first, AsMap(a))
    requires j < m && i < a[j] && suits(j, i)
    ensures k < m && a[k] == i && Before(first, k, j)
  {
    var fit := AsMap(a);
    assert j in fit && TakenBefore(first, fit, i, j);
    k :| k in fit && fit[k] == i && Before(first, k, j);
  }

  lemma {:induction false} FirstFitAgreesAt(suits: Suits, first: nat -> bool, m: nat, a: seq<nat>, b: seq<nat>, j: nat)
    requires Assignment(suits, m, a) && FirstFit(suits, first, AsMap(a))
    requires Assignment(suits, m, b) && FirstFit(suits, first, AsMap(b))
    requires j < m
    ensures a[j] == b[j]
    decreases Turn(first, m, j)
  {
    if a[j] < b[j] {
      var k := EarlierTaker(suits, first, m, b, j, a[j]);
      FirstFitAgreesAt(suits, first, m, a, b, k);
    } else if b[j] < a[j] {
      var k := EarlierTaker(suits, first, m, a, j, b[j]);
      FirstFitAgreesAt(suits, first, m, a, b, k);
    }
  }

  /** There is at most one first-fit assignment. */
  lemma FirstFitUnique(suits: Suits, first: nat -> bool, m: nat, a: seq<nat>, b: seq<nat>)
    requires Assignment(suits, m, a) && FirstFit(suits, first, AsMap(a))
    requires Assignment(suits, m, b) && FirstFit(suits, first, AsMap(b))
    ensures a == b
  {
    forall j: nat | j < m ensures a[j] == b[j] { FirstFitAgreesAt(suits, first, m, a, b, j); }
  }

  /** A matching served in turn: whoever comes before a served request is served. */
  ghost predicate InTurn(first: nat -> bool, m: nat, fit: map<nat, nat>) {
    && (forall j | j in fit :: j < m)
    && (forall j, k: nat | j in fit && k < m && Before(first, k, j) :: k in fit)
  }

  /** A first-fit assignment does with the served requests what was done. */
  lemma {:induction false} ServedAgree(suits: Suits, first: nat -> bool, m: nat, fit: map<nat, nat>, b: seq<nat>, j: nat)
    requires Fits(suits, fit) && FirstFit(suits, first, fit) && InTurn(first, m, fit)
    requires Assignment(suits, m, b) && FirstFit(suits, first, AsMap(b))
    requires j in fit
    ensures b[j] == fit[j]
    decreases Turn(first, m, j)
  {
    if fit[j] < b[j] {
      var k := EarlierTaker(suits, first, m, b, j, fit[j]);
      ServedAgree(suits, first, m, fit, b, k);
    } else if b[j] < fit[j] {
      assert TakenBefore(first, fit, b[j], j);
      var k :| k in fit && fit[k] == b[j] && Before(first, k, j);
      ServedAgree(suits, first, m, fit, b, k);
    }
  }

  /** If a request gets stuck in its turn there is no first-fit assignment, whatever suits what. */
  lemma StuckNoFirstFit(suits: Suits, first: nat -> bool, m: nat, fit: map<nat, nat>, c: nat, b: seq<nat>)
    requires Fits(suits, fit) && FirstFit(suits, first, fit) && InTurn(first, m, fit) && c < m && Stuck(suits, fit, c)
    ensures !(Assignment(suits, m, b) && FirstFit(suits, first, AsMap(b)))
  {
    if Assignment(suits, m, b) && FirstFit(suits, first, AsMap(b)) {
      assert suits(c, b[c]);
      var j :| j in fit && fit[j] == b[c];
      ServedAgree(suits, first, m, fit, b, j);
    }
  }

  // ---- The two passes as a whole ----

  /** The first suitable offer left, if there is one. */
  lemma FirstFree(suits: Suits, marked: seq<bool>, c: nat) returns (i: nat)
    ensures i <= |marked| && forall h: nat | h < i :: marked[h] || !suits(c, h)
    ensures i < |marked| ==> !marked[i] && suits(c, i)
  {
    i := 0;
    while i < |marked| && (marked[i] || !suits(c, i))
      invariant i <= |marked| && forall h: nat | h < i :: marked[h] || !suits(c, h)
    {
      i := i + 1;
    }
  }

  /** What holds after `t` turns: the requests whose turn has been are served. */
  ghost predicate Served(suits: Suits, first: nat -> bool, m: nat, t: nat, fit: map<nat, nat>, marked: seq<bool>) {
    && Fits(suits, fit) && FirstFit(suits, first, fit) && Marks(marked, fit)
    && forall j: nat :: j in fit <==> j < m && Turn(first, m, j) < t
  }

  /** The request that may have turn `t`. */
  function Due(m: nat, t: nat): nat { if t < m then t else t - m }

  lemma NobodysTurn(suits: Suits, first: nat -> bool, m: nat, t: nat, fit: map<nat, nat>, marked: seq<bool>)
    requires Served(suits, first, m, t, fit, marked) && t < 2 * m && Turn(first, m, Due(m, t)) != t
    ensures Served(suits, first, m, t + 1, fit, marked)
  {
    forall j: nat | j < m ensures Turn(first, m, j) != t {}
  }

  lemma ItsTurn(suits: Suits, first: nat -> bool, m: nat, t: nat, fit: map<nat, nat>, marked: seq<bool>, i: nat)
    requires Served(suits, first, m, t, fit, marked) && t < 2 * m && Turn(first, m, Due(m, t)) == t
    requires i < |marked| && !marked[i] && suits(Due(m, t), i)
    requires forall h: nat | h < i :: marked[h] || !suits(Due(m, t), h)
    ensures Served(suits, first, m, t + 1, fit[Due(m, t) := i], marked[i := true])
  {
    var c := Due(m, t);
    forall k | k in fit ensures Before(first, k, c) {}
    Serve(suits, first, fit, marked, c, i);
    forall j: nat | j < m ensures Turn(first, m, j) == t <==> j == c {}
  }

  /** Serving in turn ends with a first-fit assignment, or with a request that is stuck. */
  lemma Greedily(suits: Suits, first: nat -> bool, m: nat, n: nat) returns (fit: map<nat, nat>, c: nat)
    requires forall j: nat, i: nat | suits(j, i) :: i < n
    ensures Fits(suits, fit) && FirstFit(suits, first, fit)
    ensures c <= m && forall j | j in fit :: j < m
    ensures c < m ==> Stuck(suits, fit, c) && forall j | j in fit :: Before(first, j, c)
    ensures c == m ==> forall j: nat :: j in fit <==> j < m
  {
    fit, c := map[], m;
    var marked := seq(n, _ => false);
    var t := 0;
    while t < 2 * m
      invariant t <= 2 * m && |marked| == n && c == m
      invariant Served(suits, first, m, t, fit, marked)
    {
      if Turn(first, m, Due(m, t)) == t {
        var i := FirstFree(suits, marked, Due(m, t));
        if i == n {
          c := Due(m, t);
          return;
        }
        ItsTurn(suits, first, m, t, fit, marked, i);
        fit, marked := fit[Due(m, t) := i], marked[i := true];
      } else {
        NobodysTurn(suits, first, m, t, fit, marked);
      }
      t := t + 1;
    }
  }
}
