/** The list of visitors banned after too many bad attempts (share/security/banlist.go). Times and
    durations are numbers on one clock. */
module BanList {
  import opened Wrappers

  datatype Visitor = Visitor(badAttempts: int, banTime: Option<int>)

  type Visitors = map<string, Visitor>

  class MaxBadAttemptsBanList {
    const banDuration: int
    const maxBadAttempts: int
    var visitors: Visitors

    constructor (maxBadAttempts: int, banDuration: int)
      ensures this.maxBadAttempts == maxBadAttempts && this.banDuration == banDuration && visitors == map[]
    {
      this.maxBadAttempts, this.banDuration, visitors := maxBadAttempts, banDuration, map[];
    }

    method AddBadAttempt(key: string, now: int)
      modifies this
      ensures visitors == Next(maxBadAttempts, banDuration, old(visitors), Bad(key, now))
    {
      if key !in visitors {
        visitors := visitors[key := Visitor(0, None)];
      }
      var v := visitors[key];
      v := v.(badAttempts := v.badAttempts + 1);
      if v.badAttempts == maxBadAttempts {
        v := Visitor(0, Some(now + banDuration));
      }
      visitors := visitors[key := v];
    }

    method AddSuccessAttempt(key: string)
      modifies this
      ensures visitors == Next(maxBadAttempts, banDuration, old(visitors), Good(key))
    {
      if key in visitors {
        visitors := visitors[key := Visitor(0, None)];
      }
    }

    method IsBanned(key: string, now: int) returns (banned: bool)
      ensures banned == Banned(visitors, key, now)
    {
      if key !in visitors {
        return false;
      }
      var v := visitors[key];
      banned := v.banTime.Some? && v.banTime.value > now;
    }
  }

  predicate Banned(visitors: Visitors, key: string, now: int) {
    key in visitors && visitors[key].banTime.Some? && visitors[key].banTime.value > now
  }

  // ---- Histories ----

  datatype Attempt = Bad(key: string, now: int) | Good(key: string)

  function Next(max: int, duration: int, visitors: Visitors, a: Attempt): Visitors {
    match a
    case Good(key) => if key in visitors then visitors[key := Visitor(0, None)] else visitors
    case Bad(key, now) =>
      var v := if key in visitors then visitors[key] else Visitor(0, None);
      visitors[key := if v.badAttempts + 1 == max then Visitor(0, Some(now + duration))
                      else v.(badAttempts := v.badAttempts + 1)]
  }

  function Run(max: int, duration: int, attempts: seq<Attempt>): Visitors {
    if attempts == [] then map[]
    else Next(max, duration, Run(max, duration, attempts[..|attempts| - 1]), attempts[|attempts| - 1])
  }

  /** The times of a visitor's bad attempts since the last successful one. */
  function BadTimes(attempts: seq<Attempt>, key: string): seq<int> {
    if attempts == [] then []
    else
      var front, a := attempts[..|attempts| - 1], attempts[|attempts| - 1];
      if a.key != key then BadTimes(front, key)
      else if a.Good? then []
      else BadTimes(front, key) + [a.now]
  }

  /** What the history makes of a visitor: each `max`-th bad attempt starts the count again and
      a ban. */
  function Due(max: int, duration: int, times: seq<int>): Visitor {
    var k := |times|;
    if max <= 0 || k < max then Visitor(k, None)
    else Visitor(k % max, Some(times[RoundEnd(k, max)] + duration))
  }

  /** The index, among `k` bad attempts, of the last one that completed a round. */
  function RoundEnd(k: nat, max: int): (i: nat)
    requires 0 < max <= k
    ensures i < k
  {
    LastRoundEnds(k, max);
    k - k % max - 1
  }

  /** A multiple of `m` that is not zero is at least `m` away from it. */
  lemma Apart(d: int, m: int)
    requires m > 0
    ensures d == 0 || d * m >= m || d * m <= -m
  {
    if d >= 1 {
      assert d * m == m + (d - 1) * m && (d - 1) * m >= 0;
    } else if d <= -1 {
      assert d * m == -m + (d + 1) * m && (d + 1) * m <= 0;
    }
  }

  lemma RemainderIs(n: nat, q: int, m: int, r: nat)
    requires r < m && n == q * m + r
    ensures n % m == r
  {
    var d := n / m - q;
    assert n == n / m * m + n % m;
    assert d * m == n / m * m - q * m;
    Apart(d, m);
  }

  lemma LastRoundEnds(k: nat, max: int)
    requires 0 < max <= k
    ensures 0 <= k - k % max - 1 < k
  {
    assert k == k / max * max + k % max;
    Apart(k / max, max);
  }

  /** The remainder of the next number. */
  lemma NextRemainder(k: nat, max: int)
    requires max > 0
    ensures (k + 1) % max == if k % max + 1 == max then 0 else k % max + 1
  {
    var q, r := k / max, k % max;
    assert k == q * max + r;
    if r + 1 == max {
      assert q * max + max == (q + 1) * max;
      RemainderIs(k + 1, q + 1, max, 0);
    } else {
      RemainderIs(k + 1, q, max, r + 1);
    }
  }

  lemma DueAfterBad(max: int, duration: int, times: seq<int>, now: int)
    ensures var v := Due(max, duration, times);
            Due(max, duration, times + [now]) ==
            if v.badAttempts + 1 == max then Visitor(0, Some(now + duration))
            else v.(badAttempts := v.badAttempts + 1)
  {
    var k := |times|;
    if max > 0 {
      NextRemainder(k, max);
      if k < max {
        RemainderIs(k, 0, max, k);
      } else {
        LastRoundEnds(k, max);
        LastRoundEnds(k + 1, max);
      }
    }
  }

  /** The list refines its history: a visitor's record is what the attempts since the last
      success make of it, whatever the other visitors did. */
  lemma {:induction false} RefinesHistory(max: int, duration: int, attempts: seq<Attempt>, key: string)
    ensures var visitors := Run(max, duration, attempts);
            (if key in visitors then visitors[key] else Visitor(0, None)) ==
            Due(max, duration, BadTimes(attempts, key))
  {
    if attempts != [] {
      var front, a := attempts[..|attempts| - 1], attempts[|attempts| - 1];
      RefinesHistory(max, duration, front, key);
      if a.key == key && a.Bad? {
        DueAfterBad(max, duration, BadTimes(front, key), a.now);
      }
    }
  }

  /** With k bad attempts since the last success, a visitor is banned at `t` exactly when k is at
      least the maximum and the ban started by the last attempt that completed a round is not
      over. With a maximum that is not positive nobody is. */
  lemma BannedExactlyWhen(max: int, duration: int, attempts: seq<Attempt>, key: string, t: int)
    ensures var times := BadTimes(attempts, key);
            Banned(Run(max, duration, attempts), key, t) <==>
            0 < max <= |times| && times[RoundEnd(|times|, max)] + duration > t
  {
    RefinesHistory(max, duration, attempts, key);
  }

  /** Two histories that agree on a visitor agree on the ban. */
  lemma OthersDoNotMatter(max: int, duration: int, one: seq<Attempt>, other: seq<Attempt>, key: string, t: int)
    requires BadTimes(one, key) == BadTimes(other, key)
    ensures Banned(Run(max, duration, one), key, t) <==> Banned(Run(max, duration, other), key, t)
  {
    RefinesHistory(max, duration, one, key);
    RefinesHistory(max, duration, other, key);
  }
}
