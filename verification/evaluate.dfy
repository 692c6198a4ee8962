/**
 * A reference meaning for compiled filter, search and sort instructions, over rows held
 * in memory: what the SQL the Eloquent builder emits selects and how it orders.
 *
 * Comparison is defined on integers and on strings (all operators, strings ordered
 * character by character) and `like` / `not like` follow SQL's `LIKE`; a NULL column
 * satisfies no comparison. The builder turns `where($c, '=', null)` into `whereNull($c)`
 * and refuses a null with any other known operator, which fails compilation before any
 * row is read. `whereIn` with an empty list selects nothing
 * and `whereNotIn` with an empty list selects everything, as the builder compiles them.
 * Sorting is lexicographic over the sort keys; the builder lower-cases a direction and
 * sorts ascending only for "asc", descending for anything else.
 */
module Evaluate {
  import opened Wrappers
  import opened PhpValues
  import opened PhpArray
  import opened Text
  import opened QuerySpec
  import opened QueryCompile
  import opened Search
  import opened Reads

  type Row = map<Key, Scalar>

  /** The value of a column; an absent column reads as NULL. */
  function Cell(row: Row, c: Key): Scalar {
    if c in row then row[c] else SNull
  }

  /** The string SQL matches with `LIKE`: a number in decimal, a boolean as 1 or 0. */
  function SqlString(v: Scalar): string {
    match v
    case SStr(s) => s
    case SInt(n) => IntToString(n)
    case SBool(b) => if b then "1" else "0"
    case SNull => ""
  }

  /** SQL `v LIKE p`, false when either side is NULL. */
  predicate LikeCell(p: Scalar, v: Scalar) {
    p != SNull && v != SNull && Like(SqlString(p), SqlString(v))
  }

  /** SQL comparison `a op b`, false when unknown. */
  predicate Compare(a: Scalar, op: string, b: Scalar) {
    if op == "like" then LikeCell(b, a)
    else if op == "not like" then a != SNull && b != SNull && !LikeCell(b, a)
    else if a.SInt? && b.SInt? then
      || (op == "=" && a.n == b.n)
      || ((op == "!=" || op == "<>") && a.n != b.n)
      || (op == "<" && a.n < b.n)
      || (op == "<=" && a.n <= b.n)
      || (op == ">" && a.n > b.n)
      || (op == ">=" && a.n >= b.n)
    else if a.SStr? && b.SStr? then
      || (op == "=" && a.s == b.s)
      || ((op == "!=" || op == "<>") && a.s != b.s)
      || (op == "<" && StrLess(a.s, b.s))
      || (op == "<=" && (a.s == b.s || StrLess(a.s, b.s)))
      || (op == ">" && StrLess(b.s, a.s))
      || (op == ">=" && (a.s == b.s || StrLess(b.s, a.s)))
    else false
  }

  /** SQL `a IN (vs)`. */
  predicate InList(a: Scalar, vs: seq<Scalar>) {
    exists k :: 0 <= k < |vs| && Compare(a, "=", vs[k])
  }

  /** SQL `a NOT IN (vs)`; the builder compiles an empty list to a true condition. */
  predicate NotInList(a: Scalar, vs: seq<Scalar>) {
    |vs| == 0 || (a != SNull && forall k :: 0 <= k < |vs| ==> vs[k] != SNull && !Compare(a, "=", vs[k]))
  }

  /** Whether a row satisfies a filter or search instruction; other instructions select
      every row. */
  predicate Holds(row: Row, i: Instr) {
    match i
    case WhereIn(c, vs) => InList(Cell(row, c), vs)
    case WhereNotIn(c, vs) => NotInList(Cell(row, c), vs)
    case WhereNull(c) => Cell(row, c) == SNull
    case WhereNotNull(c) => Cell(row, c) != SNull
    case WhereOp(c, op, v) => if op == "=" && v == SNull then Cell(row, c) == SNull else Compare(Cell(row, c), op, v)
    case WhereSearch(columns, input) => SearchHolds(row, columns, input)
    case _ => true
  }

  /** The clause `search` adds: some compared column's value is `LIKE` the pattern. */
  predicate SearchHolds(row: Row, columns: seq<string>, input: string) {
    exists i :: 0 <= i < |columns| && LikeCell(SStr(Pattern(input)), Cell(row, StrK(columns[i])))
  }

  /** The instructions' constraints are ANDed. */
  predicate HoldsAll(row: Row, ins: seq<Instr>) {
    forall i :: 0 <= i < |ins| ==> Holds(row, ins[i])
  }

  /** The rows a query selects, in their stored order. */
  function Select(rows: seq<Row>, ins: seq<Instr>): (r: seq<Row>)
    ensures |r| <= |rows|
    ensures forall x :: x in r <==> x in rows && HoldsAll(x, ins)
    decreases |rows|
  {
    if |rows| == 0 then []
    else Select(rows[..|rows| - 1], ins) + (if HoldsAll(rows[|rows| - 1], ins) then [rows[|rows| - 1]] else [])
  }

  /** Every operator of one filter attribute holds on the row. */
  predicate FilterHolds(row: Row, f: (Key, Filter)) {
    forall j :: 0 <= j < |FilterOps(f.1)| ==> Holds(row, FilterInstr(f.0, FilterOps(f.1)[j].0, FilterOps(f.1)[j].1))
  }

  /** Every (attribute, operator) pair of the filters holds on the row. */
  predicate FiltersHold(row: Row, filters: seq<(Key, Filter)>) {
    forall i :: 0 <= i < |filters| ==> FilterHolds(row, filters[i])
  }

  lemma HoldsAllAppend(row: Row, x: seq<Instr>, y: seq<Instr>)
    ensures HoldsAll(row, x + y) <==> HoldsAll(row, x) && HoldsAll(row, y)
  {
    if HoldsAll(row, x) && HoldsAll(row, y) {
      forall i | 0 <= i < |x + y|
        ensures Holds(row, (x + y)[i])
      {
        if i >= |x| {
          assert (x + y)[i] == y[i - |x|];
        }
      }
    }
    if HoldsAll(row, x + y) {
      forall i | 0 <= i < |x|
        ensures Holds(row, x[i])
      {
        assert (x + y)[i] == x[i];
      }
      forall i | 0 <= i < |y|
        ensures Holds(row, y[i])
      {
        assert (x + y)[|x| + i] == y[i];
      }
    }
  }

  lemma OpInstrsHold(row: Row, f: (Key, Filter))
    ensures HoldsAll(row, OpInstrs(f.0, FilterOps(f.1))) <==> FilterHolds(row, f)
  {
    var ins := OpInstrs(f.0, FilterOps(f.1));
    assert forall j :: 0 <= j < |ins| ==> ins[j] == FilterInstr(f.0, FilterOps(f.1)[j].0, FilterOps(f.1)[j].1);
  }

  lemma FiltersHoldSnoc(row: Row, filters: seq<(Key, Filter)>)
    requires |filters| > 0
    ensures FiltersHold(row, filters) <==>
      FiltersHold(row, filters[..|filters| - 1]) && FilterHolds(row, filters[|filters| - 1])
  {
    var n := |filters| - 1;
    assert filters == filters[..n] + [filters[n]];
    AllSnoc(filters[..n], filters[n], f => FilterHolds(row, f));
  }

  /** A property holds of every element of `front + [last]` exactly when it holds of
      every element of `front` and of `last`. */
  lemma AllSnoc<T>(front: seq<T>, last: T, p: T -> bool)
    ensures (forall i :: 0 <= i < |front + [last]| ==> p((front + [last])[i])) <==>
      (forall i :: 0 <= i < |front| ==> p(front[i])) && p(last)
  {
    var s := front + [last];
    assert forall i :: 0 <= i < |front| ==> s[i] == front[i];
    assert s[|front|] == last;
  }

  /** Filters are conjunctive: a row passes the compiled filters exactly when it
      satisfies every (attribute, operator) pair, each compiled on its own. */
  lemma {:induction false} FiltersConjunctive(row: Row, filters: seq<(Key, Filter)>)
    ensures HoldsAll(row, FilterInstrs(filters)) <==> FiltersHold(row, filters)
    decreases |filters|
  {
    if |filters| > 0 {
      var n := |filters| - 1;
      var front := filters[..n];
      var last := OpInstrs(filters[n].0, FilterOps(filters[n].1));
      assert FilterInstrs(filters) == FilterInstrs(front) + last;
      FiltersConjunctive(row, front);
      HoldsAllAppend(row, FilterInstrs(front), last);
      OpInstrsHold(row, filters[n]);
      FiltersHoldSnoc(row, filters);
    }
  }

  /** The rows `prepareQuery` selects are exactly those satisfying every filter pair:
      eager loads, sort keys and take/skip select nothing away, and has-relation
      constraints are outside this reference meaning. */
  lemma PreparedSelection(row: Row, s: Spec)
    requires Prepare(s).Success?
    ensures HoldsAll(row, Prepare(s).value) <==> FiltersHold(row, s.filters)
  {
    var e, h, f, o, l := SplitPrepared(s);
    HoldsAllBlocks(row, e, h, f, o, l);
    FiltersConjunctive(row, s.filters);
  }

  /** An instruction outside the filter phase selects every row. */
  lemma HoldsOutsideFilters(row: Row, ins: seq<Instr>, q: nat)
    requires q < 5 && q != 2 && forall i :: 0 <= i < |ins| ==> Phase(ins[i]) == q
    ensures HoldsAll(row, ins)
  {
    forall i | 0 <= i < |ins|
      ensures Holds(row, ins[i])
    {
      assert !IsFilter(ins[i]) && !ins[i].WhereSearch?;
    }
  }

  lemma HoldsAllBlocks(row: Row, e: seq<Instr>, h: seq<Instr>, f: seq<Instr>, o: seq<Instr>, l: seq<Instr>)
    requires PhaseBlocks(e, h, f, o, l)
    ensures HoldsAll(row, e + h + f + o + l) <==> HoldsAll(row, f)
  {
    HoldsOutsideFilters(row, e, 0);
    HoldsOutsideFilters(row, h, 1);
    HoldsOutsideFilters(row, o, 3);
    HoldsOutsideFilters(row, l, 4);
    HoldsAllAppend(row, e + h + f + o, l);
    HoldsAllAppend(row, e + h + f, o);
    HoldsAllAppend(row, e + h, f);
    HoldsAllAppend(row, e, h);
  }

  // ---------------------------------------------------------------------------------
  // Search

  /** `search` keeps exactly the rows the rest of the query keeps on which some compared
      column matches the pattern. */
  lemma SearchReadSelects(s: Spec, input: string, compare: seq<string>, attrs: seq<string>,
                          tableColumns: seq<string>, rows: seq<Row>)
    requires SearchRead(s, input, compare, attrs, tableColumns).Success?
    ensures var plan := SearchRead(s, input, compare, attrs, tableColumns).value;
      forall x :: x in Select(rows, plan.instrs) <==>
        x in Select(rows, Prepare(s).value) && SearchHolds(x, CompareColumns(compare, tableColumns), input)
  {
    var columns := CompareColumns(compare, tableColumns);
    SearchPlan(s, input, compare, attrs, tableColumns);
    SelectSearch(rows, Prepare(s).value, columns, input);
  }

  lemma SearchPlan(s: Spec, input: string, compare: seq<string>, attrs: seq<string>, tableColumns: seq<string>)
    requires SearchRead(s, input, compare, attrs, tableColumns).Success?
    ensures Prepare(s).Success?
    ensures SearchRead(s, input, compare, attrs, tableColumns).value.instrs ==
      Prepare(s).value + [WhereSearch(CompareColumns(compare, tableColumns), input)]
  {
  }

  /** Adding the search clause keeps the selected rows it holds on. */
  lemma SelectSearch(rows: seq<Row>, ins: seq<Instr>, columns: seq<string>, input: string)
    ensures forall x :: x in Select(rows, ins + [WhereSearch(columns, input)]) <==>
      x in Select(rows, ins) && SearchHolds(x, columns, input)
  {
    var q := WhereSearch(columns, input);
    SelectAppendOne(rows, ins, q);
    forall x
      ensures Holds(x, q) == SearchHolds(x, columns, input)
    {
    }
  }

  /** Adding one instruction keeps the selected rows that satisfy it. */
  lemma SelectAppendOne(rows: seq<Row>, ins: seq<Instr>, q: Instr)
    ensures forall x :: x in Select(rows, ins + [q]) <==> x in Select(rows, ins) && Holds(x, q)
  {
    forall x
      ensures HoldsAll(x, ins + [q]) <==> HoldsAll(x, ins) && Holds(x, q)
    {
      HoldsAllAppend(x, ins, [q]);
      HoldsAllOne(x, q);
    }
  }

  /** For an input without wildcards, quotes or backslashes, a row passes the search
      clause exactly when some compared column holds a value containing the input's
      characters in order. */
  lemma SearchHoldsSubsequence(row: Row, columns: seq<string>, input: string)
    requires Plain(input)
    ensures SearchHolds(row, columns, input) <==>
      exists i :: 0 <= i < |columns| && Cell(row, StrK(columns[i])) != SNull &&
        Subsequence(input, SqlString(Cell(row, StrK(columns[i]))))
  {
    forall t: string
      ensures Like(Pattern(input), t) <==> Subsequence(input, t)
    {
      PatternMatchesSubsequence(input, t);
    }
  }

  /** Searching "rn" over name and xp finds the player named "arjon" through the name. */
  lemma SearchNameExample()
    ensures SearchHolds(Player("arjon", 57), ["name", "xp"], "rn")
  {
    SearchExample();
    var cols := ["name", "xp"];
    assert Cell(Player("arjon", 57), StrK(cols[0])) == SStr("arjon");
  }

  /** A number is searched through its decimal digits: "5" finds xp 35, "53" does not. */
  lemma SearchNumberExample()
    ensures SearchHolds(Player("zed", 35), ["name", "xp"], "5")
    ensures !SearchHolds(Player("zed", 35), ["name", "xp"], "53")
  {
    var cols := ["name", "xp"];
    var row := Player("zed", 35);
    SearchHoldsSubsequence(row, cols, "5");
    SearchHoldsSubsequence(row, cols, "53");
    assert Cell(row, StrK(cols[0])) == SStr("zed");
    assert Cell(row, StrK(cols[1])) == SInt(35);
    DecimalThirtyFive();
    SubsequenceExamples();
  }

  lemma DecimalThirtyFive()
    ensures IntToString(35) == "35"
  {
  }

  lemma SubsequenceExamples()
    ensures Subsequence("5", "35")
    ensures !Subsequence("53", "zed")
    ensures !Subsequence("53", "35")
  {
    assert "35"[1..] == "5";
    assert "5"[1..] == "";
    assert "zed"[1..] == "ed";
    assert "ed"[1..] == "d";
    assert "d"[1..] == "";
    assert "53"[1..] == "3";
  }

  // ---------------------------------------------------------------------------------
  // Sorting

  /** Lexicographic order on strings. */
  predicate StrLess(a: string, b: string)
    decreases |a|
  {
    if |a| == 0 then |b| > 0
    else |b| > 0 && (a[0] < b[0] || (a[0] == b[0] && StrLess(a[1..], b[1..])))
  }

  /** The ascending order on cells: NULL first, then integers or strings. */
  predicate CellLess(a: Scalar, b: Scalar) {
    (a.SNull? && !b.SNull?)
    || (a.SInt? && b.SInt? && a.n < b.n)
    || (a.SStr? && b.SStr? && StrLess(a.s, b.s))
  }

  /** `r1` may come before `r2` under the sort keys, compared in their order. */
  predicate Precedes(r1: Row, r2: Row, keys: seq<(Key, string)>)
    decreases |keys|
  {
    if |keys| == 0 then true
    else
      var a := Cell(r1, keys[0].0);
      var b := Cell(r2, keys[0].0);
      if a == b then Precedes(r1, r2, keys[1..])
      else if Lower(keys[0].1) == "asc" then CellLess(a, b)
      else CellLess(b, a)
  }

  predicate SortedBy(rows: seq<Row>, keys: seq<(Key, string)>) {
    forall i, j :: 0 <= i < j < |rows| ==> Precedes(rows[i], rows[j], keys)
  }

  /** The sort keys of an instruction list, in the order their `orderBy` calls come. */
  function SortKeys(ins: seq<Instr>): (keys: seq<(Key, string)>)
    ensures |keys| <= |ins|
    decreases |ins|
  {
    if |ins| == 0 then []
    else
      var last := ins[|ins| - 1];
      SortKeys(ins[..|ins| - 1]) + (if last.OrderBy? then [(last.column, last.direction)] else [])
  }

  lemma {:induction false} SortKeysAppend(x: seq<Instr>, y: seq<Instr>)
    ensures SortKeys(x + y) == SortKeys(x) + SortKeys(y)
    decreases |y|
  {
    if |y| == 0 {
      assert x + y == x;
    } else {
      assert (x + y)[..|x + y| - 1] == x + y[..|y| - 1];
      SortKeysAppend(x, y[..|y| - 1]);
    }
  }

  lemma {:induction false} SortKeysNone(x: seq<Instr>)
    requires forall i :: 0 <= i < |x| ==> !x[i].OrderBy?
    ensures SortKeys(x) == []
    decreases |x|
  {
    if |x| > 0 {
      SortKeysNone(x[..|x| - 1]);
    }
  }

  lemma {:induction false} SortKeysOfSort(sort: seq<(Key, string)>)
    ensures SortKeys(SortInstrs(sort)) == sort
    decreases |sort|
  {
    if |sort| > 0 {
      var front := sort[..|sort| - 1];
      SortKeysOfSort(front);
      assert SortInstrs(sort)[..|sort| - 1] == SortInstrs(front);
      assert sort == front + [sort[|sort| - 1]];
    }
  }

  /** Instructions outside the sort phase contribute no sort key. */
  lemma SortKeysOutsideSort(ins: seq<Instr>, q: nat)
    requires q != 3 && forall i :: 0 <= i < |ins| ==> Phase(ins[i]) == q
    ensures SortKeys(ins) == []
  {
    SortKeysNone(ins);
  }

  lemma SortKeysBlocks(e: seq<Instr>, h: seq<Instr>, f: seq<Instr>, o: seq<Instr>, l: seq<Instr>)
    requires PhaseBlocks(e, h, f, o, l)
    ensures SortKeys(e + h + f + o + l) == SortKeys(o)
  {
    SortKeysAppend(e + h + f + o, l);
    SortKeysAppend(e + h + f, o);
    SortKeysAppend(e + h, f);
    SortKeysAppend(e, h);
    SortKeysOutsideSort(e, 0);
    SortKeysOutsideSort(h, 1);
    SortKeysOutsideSort(f, 2);
    SortKeysOutsideSort(l, 4);
  }

  /** The compiled query orders by the sort keys exactly in their insertion order. */
  lemma PreparedSortKeys(s: Spec)
    requires Prepare(s).Success?
    ensures SortKeys(Prepare(s).value) == s.sort
  {
    var e, h, f, o, l := SplitPrepared(s);
    SortKeysBlocks(e, h, f, o, l);
    SortKeysOfSort(s.sort);
  }

  // ---------------------------------------------------------------------------------
  // Worked examples

  function XpRow(xp: int): Row {
    map[StrK("xp") := SInt(xp)]
  }

  const XpRows: seq<Row> := [XpRow(172), XpRow(57), XpRow(352)]

  function XpQuery(f: Filter): seq<Instr> {
    FilterInstrs([(StrK("xp"), f)])
  }

  /** The rows of a three-row table that a query keeps, in order. */
  lemma SelectThree(a: Row, b: Row, c: Row, ins: seq<Instr>)
    ensures Select([a, b, c], ins) ==
      (if HoldsAll(a, ins) then [a] else []) + (if HoldsAll(b, ins) then [b] else []) + (if HoldsAll(c, ins) then [c] else [])
  {
    var none: seq<Row> := [];
    var one := none + [a];
    var two := one + [b];
    SelectSnoc(none, a, ins);
    SelectSnoc(one, b, ins);
    SelectSnoc(two, c, ins);
    assert two + [c] == [a, b, c];
  }

  /** Appending a row appends it to the selection exactly when it satisfies the query. */
  lemma SelectSnoc(rows: seq<Row>, x: Row, ins: seq<Instr>)
    ensures Select(rows + [x], ins) == Select(rows, ins) + (if HoldsAll(x, ins) then [x] else [])
  {
    assert (rows + [x])[..|rows|] == rows;
  }

  lemma XpOneOperator(op: string, o: Operand)
    ensures XpQuery(Ops([(StrK(op), o)])) == [FilterInstr(StrK("xp"), StrK(op), o)]
  {
    var fs := [(StrK("xp"), Ops([(StrK(op), o)]))];
    assert fs[..0] == [];
    assert FilterInstrs(fs) == OpInstrs(StrK("xp"), [(StrK(op), o)]);
  }

  lemma HoldsAllOne(row: Row, i: Instr)
    ensures HoldsAll(row, [i]) <==> Holds(row, i)
  {
    assert [i][0] == i;
  }

  /** The rows of the xp table that one filter instruction keeps. */
  lemma XpSelect(q: Instr)
    ensures Select(XpRows, [q]) ==
      (if Holds(XpRow(172), q) then [XpRow(172)] else []) + (if Holds(XpRow(57), q) then [XpRow(57)] else [])
      + (if Holds(XpRow(352), q) then [XpRow(352)] else [])
  {
    SelectThree(XpRow(172), XpRow(57), XpRow(352), [q]);
    HoldsAllOne(XpRow(172), q);
    HoldsAllOne(XpRow(57), q);
    HoldsAllOne(XpRow(352), q);
  }

  /** A one-operator filter on xp under a non-numeric operator compiles to that
      operator's instruction. */
  lemma XpShape(op: string, o: Operand)
    requires |op| > 0 && !IsBlank(op[0]) && !IsDigit(op[0]) && op[0] !in "+-."
    ensures XpQuery(Ops([(StrK(op), o)])) == [FilterInstr(StrK("xp"), StrK(op), o)]
    ensures OperatorOf(StrK(op)) == ReplaceOperatorAlias(op)
  {
    XpOneOperator(op, o);
    NotNumericByFirst(op);
  }

  lemma XpEqualsRows()
    ensures Select(XpRows, [WhereIn(StrK("xp"), [SInt(352), SInt(57)])]) == [XpRow(57), XpRow(352)]
  {
    XpSelect(WhereIn(StrK("xp"), [SInt(352), SInt(57)]));
    XpInAt(172);
    XpInAt(57);
    XpInAt(352);
  }

  lemma XpInAt(xp: int)
    ensures Holds(XpRow(xp), WhereIn(StrK("xp"), [SInt(352), SInt(57)])) <==> xp == 352 || xp == 57
    ensures Holds(XpRow(xp), WhereNotIn(StrK("xp"), [SInt(352), SInt(57)])) <==> xp != 352 && xp != 57
  {
    var vs := [SInt(352), SInt(57)];
    assert Cell(XpRow(xp), StrK("xp")) == SInt(xp);
    assert Compare(SInt(xp), "=", vs[0]) <==> xp == 352;
    assert Compare(SInt(xp), "=", vs[1]) <==> xp == 57;
  }

  lemma XpOpAt(xp: int, op: string, v: int)
    ensures Holds(XpRow(xp), WhereOp(StrK("xp"), op, SInt(v))) <==> Compare(SInt(xp), op, SInt(v))
  {
    assert Cell(XpRow(xp), StrK("xp")) == SInt(xp);
  }

  /** Over xp values 172, 57 and 352, `e => [352, 57]` selects two rows. */
  lemma XpEqualsExample()
    ensures Select(XpRows, XpQuery(Ops([(StrK("e"), Many([SInt(352), SInt(57)]))]))) == [XpRow(57), XpRow(352)]
  {
    var o := Many([SInt(352), SInt(57)]);
    XpShape("e", o);
    assert ReplaceOperatorAlias("e") == "equals";
    assert FilterInstr(StrK("xp"), StrK("e"), o) == WhereIn(StrK("xp"), [SInt(352), SInt(57)]);
    XpEqualsRows();
  }

  lemma XpNotEqualsRows()
    ensures Select(XpRows, [WhereNotIn(StrK("xp"), [SInt(352), SInt(57)])]) == [XpRow(172)]
  {
    XpSelect(WhereNotIn(StrK("xp"), [SInt(352), SInt(57)]));
    XpInAt(172);
    XpInAt(57);
    XpInAt(352);
  }

  /** `ne => [352, 57]` selects the one remaining row. */
  lemma XpNotEqualsExample()
    ensures Select(XpRows, XpQuery(Ops([(StrK("ne"), Many([SInt(352), SInt(57)]))]))) == [XpRow(172)]
  {
    var o := Many([SInt(352), SInt(57)]);
    XpShape("ne", o);
    assert ReplaceOperatorAlias("ne") == "not_equals";
    assert FilterInstr(StrK("xp"), StrK("ne"), o) == WhereNotIn(StrK("xp"), [SInt(352), SInt(57)]);
    XpNotEqualsRows();
  }

  lemma XpGreaterRows()
    ensures Select(XpRows, [WhereOp(StrK("xp"), ">", SInt(100))]) == [XpRow(172), XpRow(352)]
  {
    XpSelect(WhereOp(StrK("xp"), ">", SInt(100)));
    XpOpAt(172, ">", 100);
    XpOpAt(57, ">", 100);
    XpOpAt(352, ">", 100);
  }

  /** `> 100` selects two rows. */
  lemma XpGreaterExample()
    ensures Select(XpRows, XpQuery(Ops([(StrK(">"), One(SInt(100)))]))) == [XpRow(172), XpRow(352)]
  {
    var o := One(SInt(100));
    XpShape(">", o);
    assert ReplaceOperatorAlias(">") == ">";
    assert FilterInstr(StrK("xp"), StrK(">"), o) == WhereOp(StrK("xp"), ">", SInt(100));
    XpGreaterRows();
  }

  lemma XpLiteralEqualsRows()
    ensures Select(XpRows, [WhereOp(StrK("xp"), "=", SInt(352))]) == [XpRow(352)]
  {
    XpSelect(WhereOp(StrK("xp"), "=", SInt(352)));
    XpOpAt(172, "=", 352);
    XpOpAt(57, "=", 352);
    XpOpAt(352, "=", 352);
  }

  /** `= [352, 57]` compares with the first value only, so it selects one row. */
  lemma XpLiteralEqualsExample()
    ensures Select(XpRows, XpQuery(Ops([(StrK("="), Many([SInt(352), SInt(57)]))]))) == [XpRow(352)]
  {
    var o := Many([SInt(352), SInt(57)]);
    XpShape("=", o);
    assert ReplaceOperatorAlias("=") == "=";
    assert FilterInstr(StrK("xp"), StrK("="), o) == WhereOp(StrK("xp"), "=", SInt(352));
    XpLiteralEqualsRows();
  }

  lemma XpListRows()
    ensures Select(XpRows, [WhereIn(StrK("xp"), [SInt(352)]), WhereIn(StrK("xp"), [SInt(57)])]) == []
  {
    var ins := [WhereIn(StrK("xp"), [SInt(352)]), WhereIn(StrK("xp"), [SInt(57)])];
    SelectThree(XpRow(172), XpRow(57), XpRow(352), ins);
    XpListMisses(172);
    XpListMisses(57);
    XpListMisses(352);
  }

  /** No single xp value equals both 352 and 57. */
  lemma XpListMisses(xp: int)
    ensures !HoldsAll(XpRow(xp), [WhereIn(StrK("xp"), [SInt(352)]), WhereIn(StrK("xp"), [SInt(57)])])
  {
    var ins := [WhereIn(StrK("xp"), [SInt(352)]), WhereIn(StrK("xp"), [SInt(57)])];
    assert Cell(XpRow(xp), StrK("xp")) == SInt(xp);
    if xp == 352 {
      assert !Holds(XpRow(xp), ins[1]);
    } else {
      assert !Holds(XpRow(xp), ins[0]);
    }
  }

  lemma XpListShape(a: Scalar, b: Scalar)
    ensures XpQuery(Ops([(IntK(0), One(a)), (IntK(1), One(b))])) == [WhereIn(StrK("xp"), [a]), WhereIn(StrK("xp"), [b])]
  {
    var ops: PArr<Operand> := [(IntK(0), One(a)), (IntK(1), One(b))];
    var fs := [(StrK("xp"), Ops(ops))];
    assert fs[..0] == [];
    assert FilterInstrs(fs) == OpInstrs(StrK("xp"), ops);
    var r := OpInstrs(StrK("xp"), ops);
    IndexedEquality(StrK("xp"), 0, a);
    IndexedEquality(StrK("xp"), 1, b);
    assert r[0] == FilterInstr(StrK("xp"), IntK(0), One(a));
    assert r[1] == FilterInstr(StrK("xp"), IntK(1), One(b));
  }

  /** A value under an integer key is an equality test against that value. */
  lemma IndexedEquality(column: Key, n: int, v: Scalar)
    ensures FilterInstr(column, IntK(n), One(v)) == WhereIn(column, [v])
  {
  }

  /** A list under integer keys is one equality per value, ANDed: `xp => [352, 57]`
      selects nothing. */
  lemma XpListExample()
    ensures Select(XpRows, XpQuery(Ops([(IntK(0), One(SInt(352))), (IntK(1), One(SInt(57)))]))) == []
  {
    XpListShape(SInt(352), SInt(57));
    XpListRows();
  }

  function Player(name: string, xp: int): Row {
    map[StrK("name") := SStr(name), StrK("xp") := SInt(xp)]
  }

  /** Sorting by name ascending puts "janelle" before "katrina" before "mark"; sorting by
      name ascending, then xp descending, orders namesakes by falling xp. */
  lemma SortExamples()
    ensures SortedBy([Player("janelle", 57), Player("katrina", 352), Player("mark", 172)], [(StrK("name"), "asc")])
    ensures SortedBy([Player("anna", 4), Player("anna", 3), Player("anna", 2)], [(StrK("name"), "asc"), (StrK("xp"), "desc")])
    ensures !SortedBy([Player("anna", 2), Player("anna", 3), Player("anna", 4)], [(StrK("name"), "asc"), (StrK("xp"), "desc")])
  {
    var byName := [(StrK("name"), "asc")];
    var rows := [Player("janelle", 57), Player("katrina", 352), Player("mark", 172)];
    assert StrLess("janelle", "katrina");
    assert StrLess("katrina", "mark");
    assert StrLess("janelle", "mark");
    var keys := [(StrK("name"), "asc"), (StrK("xp"), "desc")];
    assert keys[1..] == [(StrK("xp"), "desc")];
    assert keys[1..][1..] == [];
    var annas := [Player("anna", 4), Player("anna", 3), Player("anna", 2)];
    forall i, j | 0 <= i < j < 3
      ensures Precedes(annas[i], annas[j], keys)
    {
      assert Cell(annas[i], StrK("name")) == Cell(annas[j], StrK("name"));
    }
    var wrong := [Player("anna", 2), Player("anna", 3), Player("anna", 4)];
    assert !Precedes(wrong[0], wrong[1], keys) by {
      assert Cell(wrong[0], StrK("name")) == Cell(wrong[1], StrK("name"));
      assert Cell(wrong[0], StrK("xp")) == SInt(2);
      assert Cell(wrong[1], StrK("xp")) == SInt(3);
    }
  }

  /** The builder lower-cases the direction and only "asc" sorts ascending: "Asc" is
      ascending, "DESC" and any other word descending. */
  lemma DirectionExamples()
    ensures SortedBy([Player("janelle", 57), Player("mark", 172)], [(StrK("name"), "Asc")])
    ensures SortedBy([Player("mark", 172), Player("janelle", 57)], [(StrK("name"), "DESC")])
    ensures SortedBy([Player("mark", 172), Player("janelle", 57)], [(StrK("name"), "down")])
    ensures !SortedBy([Player("janelle", 57), Player("mark", 172)], [(StrK("name"), "down")])
  {
    assert Lower("Asc") == "asc";
    assert StrLess("janelle", "mark");
    assert !StrLess("mark", "janelle");
    var wrong := [Player("janelle", 57), Player("mark", 172)];
    assert !Precedes(wrong[0], wrong[1], [(StrK("name"), "down")]) by {
      assert Cell(wrong[0], StrK("name")) == SStr("janelle");
      assert Cell(wrong[1], StrK("name")) == SStr("mark");
      assert Lower("down") != "asc";
    }
  }

  /** Strings compare character by character, and `like` matches the pattern. */
  lemma StringCompareExamples()
    ensures Compare(SStr("katrina"), ">", SStr("janelle"))
    ensures Compare(SStr("janelle"), "<=", SStr("katrina"))
    ensures !Compare(SStr("janelle"), ">=", SStr("katrina"))
    ensures Compare(SStr("arjon"), "like", SStr("%r%n%"))
    ensures !Compare(SStr("arjon"), "not like", SStr("%r%n%"))
    ensures !Compare(SNull, "not like", SStr("%r%n%"))
  {
    assert StrLess("janelle", "katrina");
    assert !StrLess("katrina", "janelle");
    SearchExample();
  }

  // ---------------------------------------------------------------------------------
  // Null filter values

  /** `filters(['deleted_at' => [$op => null]])` on a fresh repository. */
  function NullFilter(op: string): Spec {
    Initial.(filters := [(StrK("deleted_at"), Ops([(StrK(op), One(SNull))]))])
  }

  /** A filter pair the builder refuses fails compilation. */
  lemma NullRefused(op: string)
    requires RejectsNull(StrK(op), One(SNull))
    ensures Prepare(NullFilter(op)) == Failure(ValueRequired)
  {
    var fs := NullFilter(op).filters;
    assert FilterOps(fs[0].1)[0] == (StrK(op), One(SNull));
    assert FiltersRejectNull(fs);
  }

  /** A known operator other than `=`, spelled without a leading digit, sign or blank,
      refuses null. */
  lemma RefusedOperator(op: string)
    requires op in BuilderOperators && op !in {"=", "e", "ne", "n", "nn"}
    requires op !in {"equals", "not_equals", "null", "not_null"}
    requires !IsBlank(op[0]) && !IsDigit(op[0]) && op[0] !in "+-."
    ensures RejectsNull(StrK(op), One(SNull))
  {
    NotNumericByFirst(op);
    assert OperatorOf(StrK(op)) == op;
  }

  /** `= null` is accepted. */
  lemma NullEqualsAccepted()
    ensures Prepare(NullFilter("=")).Success?
  {
    var fs := NullFilter("=").filters;
    NotNumericByFirst("=");
    assert OperatorOf(StrK("=")) == "=";
    assert forall i, j :: 0 <= i < |fs| && 0 <= j < |FilterOps(fs[i].1)| ==> FilterOps(fs[i].1)[j] == (StrK("="), One(SNull));
  }

  /** A filter map of one attribute with one operator holds when that pair's call does. */
  lemma OneFilterHolds(row: Row, c: Key, op: Key, o: Operand)
    ensures FiltersHold(row, [(c, Ops([(op, o)]))]) <==> Holds(row, FilterInstr(c, op, o))
  {
    var f := (c, Ops([(op, o)]));
    assert [f][0] == f && FilterOps(f.1)[0] == (op, o);
  }

  /** `where($c, '=', null)` is `whereNull($c)`. */
  lemma NullEqualsHolds(row: Row, c: Key)
    ensures Holds(row, FilterInstr(c, StrK("="), One(SNull))) <==> Cell(row, c) == SNull
  {
    NotNumericByFirst("=");
    assert OperatorOf(StrK("=")) == "=";
  }

  /** `= null` keeps exactly the rows whose column is NULL. */
  lemma NullEqualsSelects(row: Row)
    ensures Prepare(NullFilter("=")).Success?
    ensures HoldsAll(row, Prepare(NullFilter("=")).value) <==> Cell(row, StrK("deleted_at")) == SNull
  {
    NullEqualsAccepted();
    PreparedSelection(row, NullFilter("="));
    OneFilterHolds(row, StrK("deleted_at"), StrK("="), One(SNull));
    NullEqualsHolds(row, StrK("deleted_at"));
  }

  /** `= null` keeps exactly the rows whose column is NULL; `>`, `<>` and `like` with
      null are refused. */
  lemma NullFilterExamples(row: Row)
    ensures Prepare(NullFilter("=")).Success?
    ensures HoldsAll(row, Prepare(NullFilter("=")).value) <==> Cell(row, StrK("deleted_at")) == SNull
    ensures Prepare(NullFilter(">")) == Failure(ValueRequired)
    ensures Prepare(NullFilter("<>")) == Failure(ValueRequired)
    ensures Prepare(NullFilter("like")) == Failure(ValueRequired)
  {
    NullEqualsSelects(row);
    NullGreaterRefused();
    NullDifferentRefused();
    NullLikeRefused();
  }

  /** `> null` is refused. */
  lemma NullGreaterRefused()
    ensures Prepare(NullFilter(">")) == Failure(ValueRequired)
  {
    RefusedOperator(">");
    NullRefused(">");
  }

  /** `<> null` is refused. */
  lemma NullDifferentRefused()
    ensures Prepare(NullFilter("<>")) == Failure(ValueRequired)
  {
    RefusedOperator("<>");
    NullRefused("<>");
  }

  /** `like null` is refused. */
  lemma NullLikeRefused()
    ensures Prepare(NullFilter("like")) == Failure(ValueRequired)
  {
    RefusedOperator("like");
    NullRefused("like");
  }
}
