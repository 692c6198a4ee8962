/**
 * The raw clause of `search` (src/BaseRepositoryEloquent.php): every compared column is
 * matched with `LIKE` against the input with a `%` wildcard around and between its
 * characters, and the column clauses are joined by ` OR ` inside one pair of
 * parentheses.
 *
 * `Like` gives SQL's `LIKE` a reference meaning (exact character comparison, `%` any
 * sequence, `_` any one character), and `PatternMatchesSubsequence` shows what the
 * pattern means: a value matches exactly when it contains the characters of the input
 * in order, not necessarily next to each other.
 */
module Search {
  import opened Text

  /** `str_split($input)`: the one-character pieces of the input; an empty input gives
      one empty piece. */
  function Chars(input: string): (pieces: seq<string>)
    ensures |input| > 0 ==> |pieces| == |input| && forall i :: 0 <= i < |input| ==> pieces[i] == [input[i]]
    ensures |input| == 0 ==> pieces == [""]
  {
    if |input| == 0 then [""] else seq(|input|, i requires 0 <= i < |input| => [input[i]])
  }

  /** `'%' . join('%', str_split($input)) . '%'`. */
  function Pattern(input: string): string {
    "%" + Join(Chars(input), "%") + "%"
  }

  /** The input's characters, each followed by `%`. */
  function Spread(w: string): string
    decreases |w|
  {
    if |w| == 0 then "" else [w[0]] + "%" + Spread(w[1..])
  }

  lemma {:induction false} JoinCharsSpread(w: string)
    requires |w| > 0
    ensures Join(Chars(w), "%") + "%" == Spread(w)
    decreases |w|
  {
    if |w| > 1 {
      JoinCharsSpread(w[1..]);
      assert Chars(w)[1..] == Chars(w[1..]);
    }
  }

  /** The search pattern is the input with a `%` before, after and between its
      characters; an empty input gives `%%`. */
  lemma PatternShape(input: string)
    ensures |input| > 0 ==> Pattern(input) == "%" + Spread(input)
    ensures |input| == 0 ==> Pattern(input) == "%%"
  {
    if |input| == 0 {
      PatternEmpty(input);
    } else {
      PatternNonEmpty(input);
    }
  }

  lemma PatternEmpty(input: string)
    requires |input| == 0
    ensures Pattern(input) == "%%"
  {
    assert Chars(input) == [""];
  }

  lemma PatternNonEmpty(input: string)
    requires |input| > 0
    ensures Pattern(input) == "%" + Spread(input)
  {
    JoinCharsSpread(input);
    Reassociate("%", Join(Chars(input), "%"), "%");
  }

  lemma Reassociate(a: string, b: string, c: string)
    ensures a + b + c == a + (b + c)
  {
  }

  /** The clause for one column: the column, ` like `, and the pattern in single
      quotes. */
  function Clause(column: string, input: string): (c: string)
    ensures |c| == |column| + 7 + |Pattern(input)| + 1
    ensures c[..|column|] == column && c[|column|..|column| + 7] == " like '"
    ensures c[|column| + 7..|c| - 1] == Pattern(input) && c[|c| - 1] == '\''
  {
    column + " like '" + Pattern(input) + "'"
  }

  /** One clause per column, in order. */
  function Clauses(columns: seq<string>, input: string): (cs: seq<string>)
    ensures |cs| == |columns| && forall i :: 0 <= i < |columns| ==> cs[i] == Clause(columns[i], input)
  {
    seq(|columns|, i requires 0 <= i < |columns| => Clause(columns[i], input))
  }

  /** The columns searched: an empty list or `['*']` means all columns of the table. */
  function CompareColumns(compare: seq<string>, tableColumns: seq<string>): (cols: seq<string>)
    ensures cols == (if compare == [] || compare == ["*"] then tableColumns else compare)
  {
    var c := if compare == [] then ["*"] else compare;
    if c == ["*"] then tableColumns else c
  }

  /** The argument of `whereRaw`: the column clauses joined by ` OR `, in parentheses. */
  function SearchSql(columns: seq<string>, input: string): (sql: string)
    ensures |sql| >= 2 && sql[0] == '(' && sql[|sql| - 1] == ')'
    ensures sql[1..|sql| - 1] == Join(Clauses(columns, input), " OR ")
  {
    var inner := Join(Clauses(columns, input), " OR ");
    assert ("(" + inner + ")")[1..|inner| + 1] == inner;
    "(" + inner + ")"
  }

  /** Cutting the text inside the parentheses at ` OR ` gives back one clause per
      compared column, in order, when no clause holds an ` OR ` of its own. */
  lemma SearchSqlClauses(columns: seq<string>, input: string)
    requires |columns| > 0
    requires forall i :: 0 <= i < |columns| ==> !Contains(Clause(columns[i], input), " OR ")
    ensures var sql := SearchSql(columns, input);
      Split(sql[1..|sql| - 1], " OR ") == Clauses(columns, input)
  {
    var cs := Clauses(columns, input);
    forall i | 0 <= i < |cs|
      ensures cs[i][|cs[i]| - 1] !in " OR "
    {
      assert cs[i][|cs[i]| - 1] == '\'';
    }
    JoinSplitRoundTrip(cs, " OR ");
  }

  /** Every character of the pattern is a `%` or one of the input's characters. */
  lemma {:induction false} SpreadChars(w: string)
    ensures forall j :: 0 <= j < |Spread(w)| ==> Spread(w)[j] == '%' || Spread(w)[j] in w
    decreases |w|
  {
    if |w| > 0 {
      SpreadChars(w[1..]);
      var q := Spread(w[1..]);
      assert Spread(w) == [w[0], '%'] + q;
      forall j | 2 <= j < |Spread(w)|
        ensures Spread(w)[j] == '%' || Spread(w)[j] in w
      {
        assert Spread(w)[j] == q[j - 2];
        if q[j - 2] in w[1..] {
          var k :| 0 <= k < |w[1..]| && w[1..][k] == q[j - 2];
          assert w[k + 1] == q[j - 2];
        }
      }
    }
  }

  /** An input without quotes cannot end the string literal early: the only quotes after
      the column are the two that delimit the pattern. */
  lemma ClauseQuotesInput(column: string, input: string)
    requires Plain(input)
    ensures var c := Clause(column, input);
      forall j :: |column| + 7 <= j < |c| - 1 ==> c[j] != '\''
  {
    var c := Clause(column, input);
    PatternShape(input);
    var pat := Pattern(input);
    assert forall j :: |column| + 7 <= j < |c| - 1 ==> c[j] == pat[j - |column| - 7];
    if |input| > 0 {
      SpreadChars(input);
      forall j | 0 <= j < |pat|
        ensures pat[j] != '\''
      {
        if j > 0 {
          assert pat[j] == Spread(input)[j - 1];
        }
      }
    }
  }

  // ---------------------------------------------------------------------------------
  // Meaning of the pattern

  /** SQL `LIKE` without an escape character. */
  predicate Like(p: string, t: string)
    decreases |p| + |t|
  {
    if |p| == 0 then |t| == 0
    else if p[0] == '%' then Like(p[1..], t) || (|t| > 0 && Like(p, t[1..]))
    else |t| > 0 && (p[0] == '_' || p[0] == t[0]) && Like(p[1..], t[1..])
  }

  /** The characters of `w` occur in `t` in order. */
  predicate Subsequence(w: string, t: string)
    decreases |t|
  {
    if |w| == 0 then true
    else if |t| == 0 then false
    else (w[0] == t[0] && Subsequence(w[1..], t[1..])) || Subsequence(w, t[1..])
  }

  /** No wildcard, quote or escape character among the input's characters. */
  predicate Plain(w: string) {
    forall i :: 0 <= i < |w| ==> w[i] != '%' && w[i] != '_' && w[i] != '\'' && w[i] != '\\'
  }

  lemma {:induction false} PercentMatchesAll(t: string)
    ensures Like("%", t)
    decreases |t|
  {
    if |t| > 0 {
      PercentMatchesAll(t[1..]);
    }
  }

  lemma {:induction false} SpreadMatches(w: string, t: string)
    requires Plain(w)
    ensures Like("%" + Spread(w), t) <==> Subsequence(w, t)
    decreases |w| + |t|
  {
    var p := "%" + Spread(w);
    if |w| == 0 {
      assert p == "%";
      PercentMatchesAll(t);
    } else {
      var q := Spread(w[1..]);
      assert p[1..] == [w[0]] + "%" + q;
      assert p[1..][1..] == "%" + q;
      if |t| > 0 {
        SpreadMatches(w[1..], t[1..]);
        SpreadMatches(w, t[1..]);
      }
    }
  }

  /** A value matches a column's search pattern exactly when it holds the input's
      characters in order, for inputs without `%` or `_`. */
  lemma PatternMatchesSubsequence(input: string, t: string)
    requires Plain(input)
    ensures Like(Pattern(input), t) <==> Subsequence(input, t)
  {
    PatternShape(input);
    if |input| == 0 {
      assert Pattern(input)[1..] == "%";
      PercentMatchesAll(t);
    } else {
      SpreadMatches(input, t);
    }
  }

  lemma {:induction false} SubsequenceOfSelf(w: string)
    ensures Subsequence(w, w)
    decreases |w|
  {
    if |w| > 0 {
      SubsequenceOfSelf(w[1..]);
    }
  }

  lemma {:induction false} SubsequenceAfterPrefix(w: string, a: string, t: string)
    requires Subsequence(w, t)
    ensures Subsequence(w, a + t)
    decreases |a|
  {
    if |a| == 0 {
      assert a + t == t;
    } else if |w| > 0 {
      SubsequenceAfterPrefix(w, a[1..], t);
      assert (a + t)[1..] == a[1..] + t;
    }
  }

  lemma {:induction false} SubsequenceBeforeSuffix(w: string, t: string, b: string)
    requires Subsequence(w, t)
    ensures Subsequence(w, t + b)
    decreases |t|
  {
    if |w| > 0 {
      assert (t + b)[1..] == t[1..] + b;
      if w[0] == t[0] && Subsequence(w[1..], t[1..]) {
        SubsequenceBeforeSuffix(w[1..], t[1..], b);
      } else {
        SubsequenceBeforeSuffix(w, t[1..], b);
      }
    }
  }

  /** Every value that contains the input literally is found by the search. */
  lemma ContainedInputMatches(input: string, a: string, b: string)
    requires Plain(input)
    ensures Like(Pattern(input), a + input + b)
  {
    SubsequenceOfSelf(input);
    SubsequenceBeforeSuffix(input, input, b);
    SubsequenceAfterPrefix(input, a, input + b);
    assert a + input + b == a + (input + b);
    PatternMatchesSubsequence(input, a + input + b);
  }

  /** Searching for "rn" finds "arjon". */
  lemma SearchExample()
    ensures Pattern("rn") == "%r%n%"
    ensures Like(Pattern("rn"), "arjon")
    ensures !Like(Pattern("nr"), "arjon")
  {
    PatternShape("rn");
    assert Spread("rn") == "r%n%" by {
      assert "rn"[1..] == "n";
      assert "n"[1..] == "";
    }
    PatternMatchesSubsequence("rn", "arjon");
    PatternMatchesSubsequence("nr", "arjon");
    assert Subsequence("rn", "arjon") by {
      assert "arjon"[1..] == "rjon";
      assert "rn"[1..] == "n";
      assert "rjon"[1..] == "jon";
      assert "jon"[1..] == "on";
      assert "on"[1..] == "n";
      assert "n"[1..] == "";
    }
    assert !Subsequence("nr", "arjon") by {
      assert "arjon"[1..] == "rjon";
      assert "rjon"[1..] == "jon";
      assert "jon"[1..] == "on";
      assert "on"[1..] == "n";
      assert "n"[1..] == "";
      assert "nr"[1..] == "r";
    }
  }
}
