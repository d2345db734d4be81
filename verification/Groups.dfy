/** Client group parameters with wildcards (server/cgroups/group.go). */
module Groups {
  import opened Wrappers
  import opened Strings

  /** The language of a wildcard pattern: `*` stands for any text, every other character for
      itself. */
  ghost predicate Glob(pattern: string, v: string)
    decreases |pattern|, |v|
  {
    if pattern == "" then v == ""
    else if pattern[0] == '*' then Glob(pattern[1..], v) || (v != "" && Glob(pattern, v[1..]))
    else v != "" && v[0] == pattern[0] && Glob(pattern[1..], v[1..])
  }

  /** `part` stands in `v` at position `k`. */
  predicate Occurs(v: string, part: string, k: nat) { k <= |v| && part <= v[k..] }

  lemma OccursShift(v: string, part: string, k: nat)
    requires v != ""
    ensures Occurs(v, part, k + 1) <==> Occurs(v[1..], part, k)
  {
    if k + 1 <= |v| {
      assert v[1..][k..] == v[k + 1..];
    }
  }

  /** First position of `part` in `v`, or -1. */
  function Index(v: string, part: string): (i: int)
    ensures -1 <= i && (i >= 0 ==> Occurs(v, part, i) && i + |part| <= |v|)
  {
    if Occurs(v, part, 0) then
      assert v[0..] == v;
      0
    else if v == "" then -1
    else
      var i := Index(v[1..], part);
      if i == -1 then -1
      else
        OccursShift(v, part, i);
        i + 1
  }

  lemma {:induction false} IndexLeast(v: string, part: string, k: nat)
    requires Occurs(v, part, k)
    ensures 0 <= Index(v, part) <= k
  {
    if !Occurs(v, part, 0) {
      OccursShift(v, part, k - 1);
      IndexLeast(v[1..], part, k - 1);
    }
  }

  /** What follows the first place of `part`. */
  function After(v: string, part: string): (rest: string)
    requires Index(v, part) >= 0
    ensures |rest| <= |v|
  {
    v[Index(v, part) + |part|..]
  }

  predicate HasSuffix(v: string, part: string) {
    |part| <= |v| && v[|v| - |part|..] == part
  }

  // ---- The scan ----

  /** The parts occur in order, each at the first place after the previous one. */
  predicate Scan(parts: seq<string>, v: string) {
    if parts == [] then true
    else Index(v, parts[0]) >= 0 && Scan(parts[1..], After(v, parts[0]))
  }

  method Matches(lower: string -> string, pattern: string, value: string) returns (b: bool)
    ensures b <==> Glob(lower(pattern), lower(value))
  {
    var str := lower(pattern);
    var v := lower(value);
    if '*' in str {
      var parts := Split(str, '*');
      ScanDecides(str, v);
      if !(parts[0] <= v) || !HasSuffix(v, parts[|parts| - 1]) {
        return false;
      }
      b := ScanParts(parts, v);
    } else {
      LiteralPattern(str, v);
      b := str == v;
    }
  }

  /** The loop of the source: `v` shrinks to what follows the part just found. */
  method ScanParts(parts: seq<string>, value: string) returns (b: bool)
    ensures b <==> Scan(parts, value)
  {
    var v := value;
    ghost var answer := Scan(parts, value);
    assert parts[0..] == parts;
    for k := 0 to |parts|
      invariant answer <==> Scan(parts[k..], v)
    {
      var i := Index(v, parts[k]);
      ScanStep(parts[k..], v);
      assert parts[k..][0] == parts[k] && parts[k..][1..] == parts[k + 1..];
      if i == -1 {
        return false;
      }
      v := v[i + |parts[k]|..];
    }
    return true;
  }

  lemma ScanStep(parts: seq<string>, v: string)
    requires |parts| > 0
    ensures Scan(parts, v) <==> Index(v, parts[0]) >= 0 && Scan(parts[1..], After(v, parts[0]))
  {}

  /** A client value belongs to a list of parameters: an absent list takes everything, an
      empty one only a client without values. */
  ghost predicate InGroup(lower: string -> string, params: Option<seq<string>>, values: seq<string>) {
    params.None? || (params.value == [] && values == []) ||
    exists i, j | 0 <= i < |params.value| && 0 <= j < |values| :: Glob(lower(params.value[i]), lower(values[j]))
  }

  method MatchesOneOf(lower: string -> string, params: Option<seq<string>>, values: seq<string>) returns (b: bool)
    ensures b <==> InGroup(lower, params, values)
    ensures params == None ==> b
    ensures params == Some([]) ==> (b <==> values == [])
    ensures params.Some? && params.value != [] ==>
              (b <==> exists i, j | 0 <= i < |params.value| && 0 <= j < |values| :: Glob(lower(params.value[i]), lower(values[j])))
  {
    if params.None? || (|params.value| == 0 && |values| == 0) {
      return true;
    }
    for i := 0 to |params.value|
      invariant forall h, j | 0 <= h < i && 0 <= j < |values| :: !Glob(lower(params.value[h]), lower(values[j]))
    {
      for j := 0 to |values|
        invariant forall h | 0 <= h < j :: !Glob(lower(params.value[i]), lower(values[h]))
      {
        var m := Matches(lower, params.value[i], values[j]);
        if m {
          return true;
        }
      }
    }
    return false;
  }

  // ---- Literal stretches of a pattern ----

  lemma {:induction false} LiteralPattern(p: string, v: string)
    requires '*' !in p
    ensures Glob(p, v) <==> p == v
  {
    if p != "" && v != "" && v[0] == p[0] {
      LiteralPattern(p[1..], v[1..]);
      assert p == [p[0]] + p[1..] && v == [v[0]] + v[1..];
    }
  }

  /** A literal prefix of the pattern must be a prefix of the value. */
  lemma {:induction false} LiteralPrefix(lit: string, rest: string, v: string)
    requires '*' !in lit
    ensures Glob(lit + rest, v) <==> lit <= v && Glob(rest, v[|lit|..])
  {
    if lit == "" {
      assert lit + rest == rest && v[0..] == v;
    } else {
      assert (lit + rest)[1..] == lit[1..] + rest;
      if v != "" && v[0] == lit[0] {
        LiteralPrefix(lit[1..], rest, v[1..]);
        assert lit == [lit[0]] + lit[1..] && v == [v[0]] + v[1..];
        if lit <= v {
          assert v[1..][|lit| - 1..] == v[|lit|..];
        }
      }
    }
  }

  /** A leading star skips some part of the value. */
  lemma {:induction false} StarSkips(rest: string, v: string)
    ensures Glob("*" + rest, v) <==> exists k | 0 <= k <= |v| :: Glob(rest, v[k..])
  {
    assert ("*" + rest)[1..] == rest;
    if v == "" {
      assert v[0..] == v;
    } else {
      StarSkips(rest, v[1..]);
      assert v[0..] == v;
      if Glob("*" + rest, v[1..]) {
        var k :| 0 <= k <= |v[1..]| && Glob(rest, v[1..][k..]);
        assert v[1..][k..] == v[k + 1..];
      }
      forall k | 0 < k <= |v| ensures v[k..] == v[1..][k - 1..] {}
    }
  }

  // ---- The language, part by part ----

  /** The parts occur in order, anywhere, the last one at the end of the value. */
  ghost predicate InOrder(parts: seq<string>, v: string)
    requires |parts| > 0
    decreases |parts|, 1
  {
    if |parts| == 1 then HasSuffix(v, parts[0]) else exists k: nat :: Placed(parts, v, k)
  }

  /** The first part at position `k`, the others after it. */
  ghost predicate Placed(parts: seq<string>, v: string, k: nat)
    requires |parts| > 1
    decreases |parts|, 0
  {
    Occurs(v, parts[0], k) && InOrder(parts[1..], v[k + |parts[0]|..])
  }

  lemma LastPartGlob(part: string, v: string)
    requires '*' !in part
    ensures Glob("*" + part, v) <==> HasSuffix(v, part)
  {
    StarSkips(part, v);
    forall k | 0 <= k <= |v| ensures Glob(part, v[k..]) <==> part == v[k..] {
      LiteralPattern(part, v[k..]);
    }
    if HasSuffix(v, part) {
      assert Glob(part, v[|v| - |part|..]);
    }
  }

  /** Starred parts describe the same values as the pattern they are joined into. */
  lemma {:induction false} InOrderGlob(parts: seq<string>, v: string)
    requires |parts| > 0 && forall p | p in parts :: '*' !in p
    ensures InOrder(parts, v) <==> Glob("*" + Join(parts, '*'), v)
    decreases |parts|, 1
  {
    if |parts| == 1 {
      LastPartGlob(parts[0], v);
    } else {
      StarSkips(Join(parts, '*'), v);
      forall k: nat | k <= |v| ensures Glob(Join(parts, '*'), v[k..]) <==> Placed(parts, v, k) {
        PlacedGlob(parts, v, k);
      }
    }
  }

  lemma {:induction false} PlacedGlob(parts: seq<string>, v: string, k: nat)
    requires |parts| > 1 && k <= |v| && forall p | p in parts :: '*' !in p
    ensures Glob(Join(parts, '*'), v[k..]) <==> Placed(parts, v, k)
    decreases |parts|, 0
  {
    var tail := "*" + Join(parts[1..], '*');
    assert Join(parts, '*') == parts[0] + tail;
    LiteralPrefix(parts[0], tail, v[k..]);
    if parts[0] <= v[k..] {
      var rest := v[k + |parts[0]|..];
      assert v[k..][|parts[0]|..] == rest;
      InOrderGlob(parts[1..], rest);
    }
  }

  // ---- Why the leftmost place is good enough ----

  lemma SuffixOfRest(v: string, part: string, i: nat)
    requires i <= |v|
    ensures HasSuffix(v[i..], part) ==> HasSuffix(v, part)
    ensures HasSuffix(v, part) && |part| <= |v| - i ==> HasSuffix(v[i..], part)
  {
    if |part| <= |v| - i {
      assert v[i..][|v| - i - |part|..] == v[|v| - |part|..];
    }
  }

  /** A longer front never hurts. */
  lemma InOrderWidens(parts: seq<string>, u: string, w: string)
    requires |parts| > 0 && InOrder(parts, w)
    ensures InOrder(parts, u + w)
  {
    var v, d := u + w, |u|;
    assert v[d..] == w;
    if |parts| == 1 {
      SuffixOfRest(v, parts[0], d);
    } else {
      var h: nat :| Placed(parts, w, h);
      assert w[h..] == v[d + h..];
      assert w[h + |parts[0]|..] == v[d + h + |parts[0]|..];
      assert Placed(parts, v, d + h);
    }
  }

  /** Exchange: wherever the first part is placed, its first place would do as well. */
  lemma PlacedFirst(parts: seq<string>, v: string, k: nat)
    requires |parts| > 1 && Placed(parts, v, k)
    ensures Index(v, parts[0]) >= 0 && InOrder(parts[1..], After(v, parts[0]))
  {
    IndexLeast(v, parts[0], k);
    var i, n := Index(v, parts[0]), |parts[0]|;
    var w := v[k + n..];
    assert After(v, parts[0]) == v[i + n..k + n] + w;
    InOrderWidens(parts[1..], v[i + n..k + n], w);
  }

  /** After a successful scan of the rest, the whole value ends right if and only if the rest does. */
  lemma ScanSuffix(parts: seq<string>, v: string, i: nat)
    requires |parts| > 0 && i <= |v|
    ensures Scan(parts, v[i..]) ==>
            (HasSuffix(v[i..], parts[|parts| - 1]) <==> HasSuffix(v, parts[|parts| - 1]))
  {
    SuffixOfRest(v, parts[|parts| - 1], i);
    if Scan(parts, v[i..]) {
      ScanLength(parts, v[i..]);
    }
  }

  /** What the scan finds has room for the last part. */
  lemma {:induction false} ScanLength(parts: seq<string>, v: string)
    requires |parts| > 0 && Scan(parts, v)
    ensures |parts[|parts| - 1]| <= |v|
  {
    if |parts| > 1 {
      ScanLength(parts[1..], After(v, parts[0]));
    }
  }

  lemma FirstPlace(parts: seq<string>, v: string)
    requires |parts| > 1 && InOrder(parts, v)
    ensures Index(v, parts[0]) >= 0 && InOrder(parts[1..], After(v, parts[0]))
  {
    var k: nat :| Placed(parts, v, k);
    PlacedFirst(parts, v, k);
  }

  /** The parts are in order exactly when they are with the first one at its first place. */
  lemma InOrderFirst(parts: seq<string>, v: string)
    requires |parts| > 1
    ensures InOrder(parts, v) <==> Index(v, parts[0]) >= 0 && InOrder(parts[1..], After(v, parts[0]))
  {
    if InOrder(parts, v) {
      FirstPlace(parts, v);
    }
    var i := Index(v, parts[0]);
    if i >= 0 && InOrder(parts[1..], After(v, parts[0])) {
      assert Placed(parts, v, i);
    }
  }

  lemma ScanOne(part: string, v: string)
    ensures HasSuffix(v, part) ==> Scan([part], v)
  {
    if HasSuffix(v, part) {
      IndexLeast(v, part, |v| - |part|);
    }
  }

  lemma AfterAt(v: string, part: string) returns (d: nat)
    requires Index(v, part) >= 0
    ensures d <= |v| && After(v, part) == v[d..]
  {
    d := Index(v, part) + |part|;
  }

  /** The leftmost scan decides, once the end of the value is known to be right. */
  lemma {:induction false} ScanInOrder(parts: seq<string>, last: string, v: string)
    requires |parts| > 0 && parts[|parts| - 1] == last
    ensures InOrder(parts, v) <==> Scan(parts, v) && HasSuffix(v, last)
  {
    if |parts| == 1 {
      ScanOne(parts[0], v);
      assert parts == [parts[0]];
    } else {
      InOrderFirst(parts, v);
      ScanStep(parts, v);
      if Index(v, parts[0]) >= 0 {
        ScanInOrder(parts[1..], last, After(v, parts[0]));
        var d := AfterAt(v, parts[0]);
        ScanSuffix(parts[1..], v, d);
      }
    }
  }

  /** A part at the front is the first one found. */
  lemma ScanAfterPrefix(parts: seq<string>, v: string)
    requires |parts| > 0 && parts[0] <= v
    ensures Scan(parts, v) <==> Scan(parts[1..], v[|parts[0]|..])
  {
    assert v[0..] == v;
    IndexLeast(v, parts[0], 0);
    ScanStep(parts, v);
  }

  /** The same behind a literal front. */
  lemma ScanDecidesRest(parts: seq<string>, v: string)
    requires |parts| > 1 && (forall p | p in parts :: '*' !in p) && parts[0] <= v
    ensures Glob("*" + Join(parts[1..], '*'), v[|parts[0]|..]) <==>
            HasSuffix(v, parts[|parts| - 1]) && Scan(parts, v)
  {
    var rest := v[|parts[0]|..];
    InOrderGlob(parts[1..], rest);
    ScanAfterPrefix(parts, v);
    ScanInOrder(parts[1..], parts[|parts| - 1], rest);
    ScanSuffix(parts[1..], v, |parts[0]|);
  }

  lemma ScanDecidesParts(parts: seq<string>, v: string)
    requires |parts| > 1 && forall p | p in parts :: '*' !in p
    ensures Glob(parts[0] + ("*" + Join(parts[1..], '*')), v) <==>
            parts[0] <= v && HasSuffix(v, parts[|parts| - 1]) && Scan(parts, v)
  {
    LiteralPrefix(parts[0], "*" + Join(parts[1..], '*'), v);
    if parts[0] <= v {
      ScanDecidesRest(parts, v);
    }
  }

  /** The prefix test, the suffix test and the scan together decide the pattern's language. */
  lemma ScanDecides(str: string, v: string)
    requires '*' in str
    ensures var parts := Split(str, '*');
            Glob(str, v) <==> parts[0] <= v && HasSuffix(v, parts[|parts| - 1]) && Scan(parts, v)
  {
    var parts := Split(str, '*');
    assert str == parts[0] + ("*" + Join(parts[1..], '*'));
    ScanDecidesParts(parts, v);
  }
}
