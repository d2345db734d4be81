/** The string library calls the program relies on: splitting at a separator, decimal
    printing and decimal parsing (Go's strings.Split, strconv.Itoa and strconv.Atoi). */
module Strings {
  import opened Wrappers

  const MAX_INT64: int := 0x7FFF_FFFF_FFFF_FFFF

  function Join(parts: seq<string>, sep: char): string
    requires |parts| > 0
  {
    if |parts| == 1 then parts[0] else parts[0] + [sep] + Join(parts[1..], sep)
  }

  lemma JoinFirst(parts: seq<string>, sep: char)
    requires |parts| > 1
    ensures Join(parts, sep) == parts[0] + [sep] + Join(parts[1..], sep)
  {}

  lemma Regroup(a: string, b: string, c: string)
    ensures a + b + c == a + (b + c)
  {}

  /** Cuts `s` at every occurrence of `sep`; the empty string gives one empty part. */
  function Split(s: string, sep: char): (parts: seq<string>)
    ensures |parts| > 0
    ensures forall i | 0 <= i < |parts| :: sep !in parts[i]
    ensures Join(parts, sep) == s
  {
    if s == "" then [""]
    else
      var rest := Split(s[1..], sep);
      if s[0] == sep then
        assert ([""] + rest)[1..] == rest;
        [""] + rest
      else
        assert ([[s[0]] + rest[0]] + rest[1..])[1..] == rest[1..];
        [[s[0]] + rest[0]] + rest[1..]
  }

  /** A separator-free prefix only lengthens the first part. */
  lemma {:induction false} SplitFirst(head: string, tail: string, sep: char)
    requires sep !in head
    ensures Split(head + tail, sep) == [head + Split(tail, sep)[0]] + Split(tail, sep)[1..]
  {
    var t := Split(tail, sep);
    if head == "" {
      assert head + tail == tail && head + t[0] == t[0];
    } else {
      var s := head + tail;
      assert s[1..] == head[1..] + tail && s[0] == head[0];
      SplitFirst(head[1..], tail, sep);
      var rest := Split(s[1..], sep);
      assert rest == [head[1..] + t[0]] + t[1..];
      assert [head[0]] + (head[1..] + t[0]) == head + t[0];
    }
  }

  /** The part before the first separator comes off first. */
  lemma SplitCons(head: string, rest: string, sep: char)
    requires sep !in head
    ensures Split(head + ([sep] + rest), sep) == [head] + Split(rest, sep)
  {
    var tail := [sep] + rest;
    SplitFirst(head, tail, sep);
    assert tail[1..] == rest;
    assert head + "" == head;
  }

  lemma SplitNone(s: string, sep: char)
    requires sep !in s
    ensures Split(s, sep) == [s]
  {
    SplitFirst(s, "", sep);
    assert s + "" == s;
  }

  /** Splitting undoes joining, for parts free of the separator. */
  lemma {:induction false} SplitJoin(parts: seq<string>, sep: char)
    requires |parts| > 0
    requires forall i | 0 <= i < |parts| :: sep !in parts[i]
    ensures Split(Join(parts, sep), sep) == parts
  {
    if |parts| == 1 {
      SplitNone(parts[0], sep);
    } else {
      var rest := Join(parts[1..], sep);
      SplitJoin(parts[1..], sep);
      SplitCons(parts[0], rest, sep);
      assert parts[0] + [sep] + rest == parts[0] + ([sep] + rest);
    }
  }

  /** How many characters at the front of `s` pass the test. */
  function Span(test: char -> bool, s: string): (n: nat)
    ensures n <= |s|
  {
    if s == "" || !test(s[0]) then 0 else 1 + Span(test, s[1..])
  }

  lemma {:induction false} SpanOfPrefix(test: char -> bool, a: string, x: string)
    requires forall i | 0 <= i < |a| :: test(a[i])
    requires x == "" || !test(x[0])
    ensures Span(test, a + x) == |a|
  {
    if a == "" {
      assert a + x == x;
    } else {
      assert (a + x)[1..] == a[1..] + x;
      SpanOfPrefix(test, a[1..], x);
    }
  }

  /** A text splits in one way only into a front that passes the test and a rest that starts
      with a character that fails it. */
  lemma SpanUnique(test: char -> bool, a: string, x: string, b: string, y: string)
    requires forall i | 0 <= i < |a| :: test(a[i])
    requires forall i | 0 <= i < |b| :: test(b[i])
    requires x == "" || !test(x[0])
    requires y == "" || !test(y[0])
    requires a + x == b + y
    ensures a == b && x == y
  {
    SpanOfPrefix(test, a, x);
    SpanOfPrefix(test, b, y);
    assert a == (a + x)[..|a|] && b == (b + y)[..|b|];
    assert x == (a + x)[|a|..] && y == (b + y)[|b|..];
  }

  /** Two texts cut at their first separator agree only if both halves agree. */
  lemma FirstCutUnique(a: string, x: string, b: string, y: string, sep: char)
    requires sep !in a && sep !in b
    requires a + ([sep] + x) == b + ([sep] + y)
    ensures a == b && x == y
  {
    SpanUnique(c => c != sep, a, [sep] + x, b, [sep] + y);
    assert x == ([sep] + x)[1..] && y == ([sep] + y)[1..];
  }

  predicate IsDigit(c: char) { '0' <= c <= '9' }

  predicate AllDigits(s: string) { forall i | 0 <= i < |s| :: IsDigit(s[i]) }

  function DigitValue(c: char): int
    requires IsDigit(c)
  {
    c as int - '0' as int
  }

  function DigitChar(d: nat): (c: char)
    requires d < 10
    ensures IsDigit(c) && DigitValue(c) == d
  {
    ('0' as int + d) as char
  }

  /** The number a run of digits denotes. */
  function Value(s: string): nat
    requires AllDigits(s)
  {
    if s == "" then 0 else Value(s[..|s| - 1]) * 10 + DigitValue(s[|s| - 1])
  }

  function Itoa(n: nat): (s: string)
    ensures |s| > 0 && AllDigits(s) && Value(s) == n
  {
    if n < 10 then
      assert [DigitChar(n)][..0] == "";
      [DigitChar(n)]
    else
      var front := Itoa(n / 10);
      assert (front + [DigitChar(n % 10)])[..|front|] == front;
      front + [DigitChar(n % 10)]
  }

  /** Decimal parsing with an optional sign; out-of-range and malformed texts are errors. */
  function Atoi(s: string): Option<int> {
    var negative := |s| > 0 && s[0] == '-';
    var digits := if |s| > 0 && (s[0] == '-' || s[0] == '+') then s[1..] else s;
    if digits == "" || !AllDigits(digits) then None
    else
      var n := if negative then 0 - Value(digits) else Value(digits);
      if -MAX_INT64 - 1 <= n <= MAX_INT64 then Some(n) else None
  }

  lemma AtoiItoa(n: nat)
    requires n <= MAX_INT64
    ensures Atoi(Itoa(n)) == Some(n)
  {
    var s := Itoa(n);
    assert IsDigit(s[0]);
  }
}
