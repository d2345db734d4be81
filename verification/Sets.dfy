/** Finite sets: members, sizes and injections. */
module Sets {
  lemma NonEmpty(s: set<int>)
    ensures s != {} ==> exists x :: x in s
  {
    if forall x :: x !in s {
      assert s == {};
    }
  }

  ghost function UpTo(n: nat): (s: set<nat>)
    ensures |s| == n && forall i: nat :: i in s <==> i < n
  {
    if n == 0 then {} else UpTo(n - 1) + {n - 1}
  }

  lemma {:induction false} SubsetSize(a: set<nat>, b: set<nat>)
    requires a <= b
    ensures |a| <= |b| && (|a| == |b| ==> a == b)
  {
    if a != {} {
      var x :| x in a;
      SubsetSize(a - {x}, b - {x});
      assert a == (a - {x}) + {x} && b == (b - {x}) + {x};
    }
  }

  lemma IntSubsetSize(a: set<int>, b: set<int>)
    requires a <= b
    ensures |a| <= |b|
  {
    assert b * a == a;
    assert |b - a| == |b| - |b * a|;
  }

  lemma OneMoreIn(a: set<int>, b: set<int>, x: int)
    requires a <= b && x in b && x !in a
    ensures |a| < |b|
  {
    IntSubsetSize(a, b - {x});
  }

  lemma AtMostOneMore(had: set<int>, all: set<int>, x: int)
    requires all <= had + {x}
    ensures |all| <= |had| + 1
  {
    IntSubsetSize(all, had + {x});
  }

  ghost predicate Distinct(q: seq<nat>) { forall i, j | 0 <= i < j < |q| :: q[i] != q[j] }

  /** The members in some order. */
  lemma {:induction false} Enumerate(s: set<nat>) returns (q: seq<nat>)
    ensures |q| == |s| && Distinct(q) && forall i | 0 <= i < |q| :: q[i] in s
  {
    if s == {} {
      q := [];
    } else {
      var x :| x in s;
      q := Enumerate(s - {x});
      q := q + [x];
    }
  }

  lemma {:induction false} Least(s: set<nat>) returns (x: nat)
    requires s != {}
    ensures x in s && forall y | y in s :: x <= y
  {
    var z :| z in s;
    assert forall y | y in s :: y == z || y in s - {z};
    if s - {z} == {} {
      x := z;
    } else {
      var y := Least(s - {z});
      x := if y < z then y else z;
    }
  }
}
