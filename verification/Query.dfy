/** Filters as a WHERE clause (share/query/convert.go), read back with the precedence of the
    search-condition grammar of SQL-92, section 8.12. */
module Query {
  import opened Wrappers

  /** Lexical units of a condition; `Param` is the placeholder `?`. */
  datatype Token = Column(name: string) | Equals | Param | And | Or | Open | Close

  datatype Filter = Filter(column: string, values: seq<string>)

  /** A table row: its value in each column. */
  type Row = string -> string

  // ---- Building the clause ----

  function Comparison(column: string): seq<Token> { [Column(column), Equals, Param] }

  function JoinTokens(parts: seq<seq<Token>>, sep: Token): seq<Token>
  {
    if parts == [] then []
    else if |parts| == 1 then parts[0]
    else parts[0] + [sep] + JoinTokens(parts[1..], sep)
  }

  function Repeat(part: seq<Token>, n: nat): (parts: seq<seq<Token>>)
    ensures |parts| == n && forall i | 0 <= i < n :: parts[i] == part
  {
    seq(n, _ => part)
  }

  /** One filter: a bare comparison for one value, otherwise a parenthesised alternative. */
  function FilterTokens(f: Filter): seq<Token> {
    if |f.values| == 1 then Comparison(f.column)
    else [Open] + JoinTokens(Repeat(Comparison(f.column), |f.values|), Or) + [Close]
  }

  function Parts(filters: seq<Filter>): (parts: seq<seq<Token>>)
    ensures |parts| == |filters|
  {
    if filters == [] then [] else [FilterTokens(filters[0])] + Parts(filters[1..])
  }

  function Params(filters: seq<Filter>): seq<string> {
    if filters == [] then [] else filters[0].values + Params(filters[1..])
  }

  function WhereTokens(filters: seq<Filter>): seq<Token> { JoinTokens(Parts(filters), And) }

  lemma {:induction false} PartsAppend(filters: seq<Filter>, f: Filter)
    ensures Parts(filters + [f]) == Parts(filters) + [FilterTokens(f)]
  {
    if filters == [] {
      assert [] + [f] == [f] && [f][1..] == [];
    } else {
      PartsAppend(filters[1..], f);
      assert (filters + [f])[1..] == filters[1..] + [f];
    }
  }

  lemma {:induction false} ParamsAppend(filters: seq<Filter>, f: Filter)
    ensures Params(filters + [f]) == Params(filters) + f.values
  {
    if filters == [] {
      assert [] + [f] == [f] && [f][1..] == [];
    } else {
      ParamsAppend(filters[1..], f);
      assert (filters + [f])[1..] == filters[1..] + [f];
    }
  }

  /** The loops of addWhere. Without filters there is no clause. */
  method AddWhere(filters: seq<Filter>) returns (clause: Option<seq<Token>>, params: seq<string>)
    ensures clause == if filters == [] then None else Some(WhereTokens(filters))
    ensures params == Params(filters)
  {
    params := [];
    if |filters| == 0 {
      return None, params;
    }
    var whereParts: seq<seq<Token>> := [];
    for i := 0 to |filters|
      invariant whereParts == Parts(filters[..i]) && params == Params(filters[..i])
    {
      var f := filters[i];
      assert filters[..i + 1] == filters[..i] + [f];
      PartsAppend(filters[..i], f);
      ParamsAppend(filters[..i], f);
      if |f.values| == 1 {
        whereParts := whereParts + [Comparison(f.column)];
        params := params + [f.values[0]];
        assert f.values == [f.values[0]];
      } else {
        var orParts: seq<seq<Token>> := [];
        for y := 0 to |f.values|
          invariant orParts == Repeat(Comparison(f.column), y)
          invariant params == Params(filters[..i]) + f.values[..y]
        {
          orParts := orParts + [Comparison(f.column)];
          params := params + [f.values[y]];
        }
        assert f.values[..|f.values|] == f.values;
        whereParts := whereParts + [[Open] + JoinTokens(orParts, Or) + [Close]];
      }
    }
    assert filters[..|filters|] == filters;
    return Some(JoinTokens(whereParts, And)), params;
  }

  // ---- Reading the clause ----

  /** A condition read off the front of a token list: its truth in the row, what is left of the
      tokens, and what is left of the parameters. */
  datatype Reading = Reading(truth: bool, rest: seq<Token>, params: seq<string>)

  /** search condition := boolean term { OR boolean term } */
  function ReadCondition(ts: seq<Token>, ps: seq<string>, row: Row): (r: Option<Reading>)
    ensures r.Some? ==> |r.value.rest| < |ts|
    decreases |ts|, 2
  {
    var t := ReadTerm(ts, ps, row);
    if t.None? || t.value.rest == [] || t.value.rest[0] != Or then t
    else
      var c := ReadCondition(t.value.rest[1..], t.value.params, row);
      if c.None? then None else Some(c.value.(truth := t.value.truth || c.value.truth))
  }

  /** boolean term := boolean factor { AND boolean factor } */
  function ReadTerm(ts: seq<Token>, ps: seq<string>, row: Row): (r: Option<Reading>)
    ensures r.Some? ==> |r.value.rest| < |ts|
    decreases |ts|, 1
  {
    var f := ReadFactor(ts, ps, row);
    if f.None? || f.value.rest == [] || f.value.rest[0] != And then f
    else
      var t := ReadTerm(f.value.rest[1..], f.value.params, row);
      if t.None? then None else Some(t.value.(truth := f.value.truth && t.value.truth))
  }

  /** boolean factor := column = ? | ( search condition ); each `?` takes the next parameter. */
  function ReadFactor(ts: seq<Token>, ps: seq<string>, row: Row): (r: Option<Reading>)
    ensures r.Some? ==> |r.value.rest| < |ts|
    decreases |ts|, 0
  {
    if ts == [] then None
    else if ts[0] == Open then
      var c := ReadCondition(ts[1..], ps, row);
      if c.None? || c.value.rest == [] || c.value.rest[0] != Close then None
      else Some(c.value.(rest := c.value.rest[1..]))
    else if |ts| >= 3 && ts[0].Column? && ts[1] == Equals && ts[2] == Param && ps != [] then
      Some(Reading(row(ts[0].name) == ps[0], ts[3..], ps[1..]))
    else None
  }

  /** What a whole clause says of a row; nothing unless tokens and parameters are used up. */
  function Meaning(clause: seq<Token>, params: seq<string>, row: Row): Option<bool> {
    var c := ReadCondition(clause, params, row);
    if c.Some? && c.value.rest == [] && c.value.params == [] then Some(c.value.truth) else None
  }

  // ---- What the filters ask for ----

  /** The row's column has one of the filter's values. */
  ghost predicate Satisfies(row: Row, f: Filter) {
    exists i | 0 <= i < |f.values| :: row(f.column) == f.values[i]
  }

  ghost predicate SatisfiesAll(row: Row, filters: seq<Filter>) {
    forall i | 0 <= i < |filters| :: Satisfies(row, filters[i])
  }

  // ---- Why the clause says that ----

  /** `x` cannot continue a boolean term, nor, with `x` not OR, a condition. */
  predicate Ends(ts: seq<Token>, sep: Token) { ts == [] || ts[0] != sep }

  lemma ReadComparison(column: string, rest: seq<Token>, v: string, ps: seq<string>, row: Row)
    ensures ReadFactor(Comparison(column) + rest, [v] + ps, row) == Some(Reading(row(column) == v, rest, ps))
  {
    var ts := Comparison(column) + rest;
    assert ts[3..] == rest && ([v] + ps)[1..] == ps;
  }

  /** An OR list of comparisons inside parentheses. */
  lemma {:induction false} ReadAlternatives(column: string, vs: seq<string>, rest: seq<Token>, ps: seq<string>, row: Row)
    requires vs != [] && Ends(rest, Or) && Ends(rest, And)
    ensures ReadCondition(JoinTokens(Repeat(Comparison(column), |vs|), Or) + rest, vs + ps, row) ==
            Some(Reading(row(column) in vs, rest, ps))
  {
    var cmp := Comparison(column);
    var tail := vs[1..] + ps;
    assert vs + ps == [vs[0]] + tail;
    if |vs| == 1 {
      assert JoinTokens(Repeat(cmp, 1), Or) == cmp && tail == ps;
      ReadComparison(column, rest, vs[0], ps, row);
    } else {
      var more := JoinTokens(Repeat(cmp, |vs| - 1), Or) + rest;
      assert Repeat(cmp, |vs|)[1..] == Repeat(cmp, |vs| - 1);
      assert JoinTokens(Repeat(cmp, |vs|), Or) + rest == cmp + ([Or] + more);
      ReadComparison(column, [Or] + more, vs[0], tail, row);
      assert ([Or] + more)[1..] == more;
      ReadAlternatives(column, vs[1..], rest, ps, row);
    }
  }

  lemma ReadFilter(f: Filter, rest: seq<Token>, ps: seq<string>, row: Row)
    requires f.values != []
    ensures ReadFactor(FilterTokens(f) + rest, f.values + ps, row) == Some(Reading(Satisfies(row, f), rest, ps))
  {
    assert Satisfies(row, f) <==> row(f.column) in f.values;
    if |f.values| == 1 {
      assert f.values == [f.values[0]];
      ReadComparison(f.column, rest, f.values[0], ps, row);
    } else {
      var inner := JoinTokens(Repeat(Comparison(f.column), |f.values|), Or);
      var ts := FilterTokens(f) + rest;
      assert ts[0] == Open && ts[1..] == inner + ([Close] + rest);
      ReadAlternatives(f.column, f.values, [Close] + rest, ps, row);
      assert ([Close] + rest)[1..] == rest;
    }
  }

  lemma SatisfiesFirst(row: Row, filters: seq<Filter>)
    requires filters != []
    ensures SatisfiesAll(row, filters) <==> Satisfies(row, filters[0]) && SatisfiesAll(row, filters[1..])
  {
    assert filters == [filters[0]] + filters[1..];
  }

  lemma WhereFirst(filters: seq<Filter>)
    requires |filters| > 1
    ensures WhereTokens(filters) == FilterTokens(filters[0]) + ([And] + WhereTokens(filters[1..]))
  {
    assert Parts(filters)[1..] == Parts(filters[1..]);
  }

  /** The AND list of all filters. */
  lemma {:induction false} ReadFilters(filters: seq<Filter>, row: Row)
    requires filters != [] && forall f | f in filters :: f.values != []
    ensures ReadTerm(WhereTokens(filters), Params(filters), row) ==
            Some(Reading(SatisfiesAll(row, filters), [], []))
  {
    var f := filters[0];
    if |filters| == 1 {
      assert WhereTokens(filters) == FilterTokens(f) + [];
      assert filters == [f];
      assert Params(filters) == f.values + [];
      ReadFilter(f, [], [], row);
    } else {
      var more := filters[1..];
      var ts := WhereTokens(more);
      WhereFirst(filters);
      ReadFilter(f, [And] + ts, Params(more), row);
      assert ([And] + ts)[1..] == ts;
      ReadFilters(more, row);
      SatisfiesFirst(row, filters);
    }
  }

  /** The clause selects exactly the rows that satisfy every filter, and uses every parameter. */
  lemma WhereSelects(filters: seq<Filter>, row: Row)
    requires filters != [] && forall f | f in filters :: f.values != []
    ensures Meaning(WhereTokens(filters), Params(filters), row) == Some(SatisfiesAll(row, filters))
  {
    ReadFilters(filters, row);
  }

  // ---- Placeholders and parameters ----

  function Placeholders(ts: seq<Token>): nat {
    if ts == [] then 0 else (if ts[0] == Param then 1 else 0) + Placeholders(ts[1..])
  }

  lemma {:induction false} PlaceholdersAppend(a: seq<Token>, b: seq<Token>)
    ensures Placeholders(a + b) == Placeholders(a) + Placeholders(b)
  {
    if a == [] {
      assert a + b == b;
    } else {
      PlaceholdersAppend(a[1..], b);
      assert (a + b)[1..] == a[1..] + b;
    }
  }

  lemma PlaceholdersComparison(column: string)
    ensures Placeholders(Comparison(column)) == 1
  {
    var c := Comparison(column);
    assert c[1..] == [Equals, Param] && c[1..][1..] == [Param] && c[1..][1..][1..] == [];
    assert Placeholders(c[1..][1..]) == 1;
  }

  lemma {:induction false} PlaceholdersAlternatives(column: string, n: nat)
    ensures Placeholders(JoinTokens(Repeat(Comparison(column), n), Or)) == n
  {
    var cmp := Comparison(column);
    PlaceholdersComparison(column);
    if n > 1 {
      var more := JoinTokens(Repeat(cmp, n - 1), Or);
      PlaceholdersAlternatives(column, n - 1);
      assert Repeat(cmp, n)[1..] == Repeat(cmp, n - 1);
      PlaceholdersAppend(cmp, [Or] + more);
      assert cmp + [Or] + more == cmp + ([Or] + more) && ([Or] + more)[1..] == more;
    }
  }

  lemma PlaceholdersFilter(f: Filter)
    ensures Placeholders(FilterTokens(f)) == |f.values|
  {
    if |f.values| == 1 {
      PlaceholdersComparison(f.column);
    } else {
      var inner := JoinTokens(Repeat(Comparison(f.column), |f.values|), Or);
      PlaceholdersAlternatives(f.column, |f.values|);
      PlaceholdersAppend([Open] + inner, [Close]);
      PlaceholdersAppend([Open], inner);
      assert Placeholders([Open]) == 0 && Placeholders([Close]) == 0;
    }
  }

  /** There are as many placeholders as parameters, for any filters whatever. */
  lemma {:induction false} PlaceholdersMatchParams(filters: seq<Filter>)
    ensures Placeholders(WhereTokens(filters)) == |Params(filters)|
  {
    if filters != [] {
      var f, more := filters[0], filters[1..];
      PlaceholdersFilter(f);
      PlaceholdersMatchParams(more);
      if |filters| > 1 {
        var ts := WhereTokens(more);
        WhereFirst(filters);
        PlaceholdersAppend(FilterTokens(f), [And] + ts);
        assert ([And] + ts)[1..] == ts;
      }
    }
  }

  // ---- When the clause is a condition at all ----

  lemma EmptyFilterUnreadable(column: string, rest: seq<Token>, ps: seq<string>, row: Row)
    ensures ReadFactor(FilterTokens(Filter(column, [])) + rest, ps, row) == None
  {
    var ts := FilterTokens(Filter(column, [])) + rest;
    assert ts[0] == Open && ts[1..][0] == Close;
    assert ReadFactor(ts[1..], ps, row) == None;
    assert ReadTerm(ts[1..], ps, row) == None;
    assert ReadCondition(ts[1..], ps, row) == None;
  }

  lemma {:induction false} SomeFilterEmpty(filters: seq<Filter>, row: Row)
    requires exists f :: f in filters && f.values == []
    ensures ReadTerm(WhereTokens(filters), Params(filters), row) == None
  {
    var f, more := filters[0], filters[1..];
    var rest := if |filters| == 1 then [] else [And] + WhereTokens(more);
    assert Parts(filters)[1..] == Parts(more);
    assert WhereTokens(filters) == FilterTokens(f) + rest;
    if f.values == [] {
      assert f == Filter(f.column, []);
      EmptyFilterUnreadable(f.column, rest, Params(filters), row);
    } else {
      ReadFilter(f, rest, Params(more), row);
      var g :| g in filters && g.values == [];
      assert g in more;
      SomeFilterEmpty(more, row);
      assert rest[1..] == WhereTokens(more);
    }
  }

  /** The clause is a condition exactly when every filter has a value. */
  lemma WhereReadable(filters: seq<Filter>, row: Row)
    requires filters != []
    ensures Meaning(WhereTokens(filters), Params(filters), row).Some? <==> forall f | f in filters :: f.values != []
  {
    if forall f | f in filters :: f.values != [] {
      WhereSelects(filters, row);
    } else {
      SomeFilterEmpty(filters, row);
    }
  }

  /** `x` in column `a` and `y` in every other one. */
  function RowWith(a: string, x: string, y: string): Row { c => if c == a then x else y }

  /** Why the parentheses are needed: AND binds tighter than OR, so without them a row may pass
      that fails the second filter. */
  lemma ParenthesesMatter(a: string, b: string, x: string, y: string, z: string)
    requires a != b && y != z
    ensures var bare := Comparison(a) + ([Or] + (Comparison(a) + ([And] + Comparison(b))));
            var row := RowWith(a, x, y);
            Meaning(bare, [x, y, z], row) == Some(true) &&
            !SatisfiesAll(row, [Filter(a, [x, y]), Filter(b, [z])])
  {
    var row := RowWith(a, x, y);
    var last := Comparison(b);
    var second := Comparison(a) + ([And] + last);
    var bare := Comparison(a) + ([Or] + second);
    assert last + [] == last && [x] + [y, z] == [x, y, z] && [y] + [z] == [y, z] && [z] + [] == [z];
    assert ([Or] + second)[1..] == second && ([And] + last)[1..] == last;
    ReadComparison(b, [], z, [], row);
    assert ReadTerm(last, [z], row) == Some(Reading(false, [], []));
    ReadComparison(a, [And] + last, y, [z], row);
    assert ReadTerm(second, [y, z], row) == Some(Reading(false, [], []));
    assert ReadCondition(second, [y, z], row) == Some(Reading(false, [], []));
    ReadComparison(a, [Or] + second, x, [y, z], row);
    assert ReadTerm(bare, [x, y, z], row) == Some(Reading(true, [Or] + second, [y, z]));
    assert ReadCondition(bare, [x, y, z], row) == Some(Reading(true, [], []));
    var filters := [Filter(a, [x, y]), Filter(b, [z])];
    assert !Satisfies(row, filters[1]);
  }
}
