/**
 * String functions of PHP's standard library as the repository uses them:
 * `implode`/`join`, `explode`, `str_replace` with a single needle, and `strtolower`.
 *
 * `str_replace` is related to its two partners: replacing a needle is the same as
 * cutting the subject at every occurrence (`explode`) and gluing the pieces back with
 * the replacement (`implode`); the pieces contain no occurrence of the needle, and
 * gluing them with the needle itself gives the subject back.
 */
module Text {

  /** `implode($sep, $parts)`. */
  function Join(parts: seq<string>, sep: string): string
    decreases |parts|
  {
    if |parts| == 0 then ""
    else if |parts| == 1 then parts[0]
    else parts[0] + sep + Join(parts[1..], sep)
  }

  predicate IsPrefix(p: string, s: string) {
    |p| <= |s| && s[..|p|] == p
  }

  /** `strtolower` on one character: ASCII capitals become small letters. */
  function LowerChar(c: char): (r: char)
    ensures 'A' <= c <= 'Z' ==> r as int == c as int + 32 && 'a' <= r <= 'z'
    ensures !('A' <= c <= 'Z') ==> r == c
  {
    if 'A' <= c <= 'Z' then (c as int + 32) as char else c
  }

  /** `strtolower($s)`, character by character. */
  function Lower(s: string): (r: string)
    ensures |r| == |s| && forall i :: 0 <= i < |s| ==> r[i] == LowerChar(s[i])
  {
    seq(|s|, i requires 0 <= i < |s| => LowerChar(s[i]))
  }

  /** Lowering is idempotent, and a string without capitals is its own lower case. */
  lemma LowerIdempotent(s: string)
    ensures Lower(Lower(s)) == Lower(s)
    ensures (forall i :: 0 <= i < |s| ==> !('A' <= s[i] <= 'Z')) ==> Lower(s) == s
  {
  }

  /** `n` occurs in `s` at position `j`. */
  predicate OccursAt(s: string, n: string, j: int) {
    0 <= j && j + |n| <= |s| && s[j..j + |n|] == n
  }

  /** `n` occurs somewhere in `s`. */
  ghost predicate Contains(s: string, n: string) {
    exists j :: OccursAt(s, n, j)
  }

  /** `str_replace($needle, $rep, $s)`: scans left to right and replaces
      non-overlapping occurrences. */
  function ReplaceAll(s: string, needle: string, rep: string): string
    requires |needle| > 0
    decreases |s|
  {
    if |s| == 0 then ""
    else if IsPrefix(needle, s) then rep + ReplaceAll(s[|needle|..], needle, rep)
    else [s[0]] + ReplaceAll(s[1..], needle, rep)
  }

  /** `explode($needle, $s)`, with `cur` the piece collected so far. */
  function SplitFrom(s: string, needle: string, cur: string): (parts: seq<string>)
    requires |needle| > 0
    ensures |parts| > 0
    decreases |s|
  {
    if |s| == 0 then [cur]
    else if IsPrefix(needle, s) then [cur] + SplitFrom(s[|needle|..], needle, "")
    else SplitFrom(s[1..], needle, cur + [s[0]])
  }

  function Split(s: string, needle: string): seq<string>
    requires |needle| > 0
  {
    SplitFrom(s, needle, "")
  }

  lemma {:induction false} ReplaceFrom(s: string, needle: string, rep: string, cur: string)
    requires |needle| > 0
    ensures cur + ReplaceAll(s, needle, rep) == Join(SplitFrom(s, needle, cur), rep)
    decreases |s|
  {
    if |s| == 0 {
      assert cur + "" == cur;
    } else if IsPrefix(needle, s) {
      var rest := SplitFrom(s[|needle|..], needle, "");
      ReplaceFrom(s[|needle|..], needle, rep, "");
      assert ([cur] + rest)[1..] == rest;
      assert "" + ReplaceAll(s[|needle|..], needle, rep) == ReplaceAll(s[|needle|..], needle, rep);
    } else {
      ReplaceFrom(s[1..], needle, rep, cur + [s[0]]);
      assert cur + ([s[0]] + ReplaceAll(s[1..], needle, rep)) == (cur + [s[0]]) + ReplaceAll(s[1..], needle, rep);
    }
  }

  /** `str_replace($n, $r, $s) == implode($r, explode($n, $s))`: every occurrence found
      by the left-to-right scan is replaced, and nothing else changes. */
  lemma ReplaceIsJoinOfSplit(s: string, needle: string, rep: string)
    requires |needle| > 0
    ensures ReplaceAll(s, needle, rep) == Join(Split(s, needle), rep)
  {
    ReplaceFrom(s, needle, rep, "");
    assert "" + ReplaceAll(s, needle, rep) == ReplaceAll(s, needle, rep);
  }

  lemma {:induction false} ReplaceWithItself(s: string, needle: string)
    requires |needle| > 0
    ensures ReplaceAll(s, needle, needle) == s
    decreases |s|
  {
    if |s| > 0 {
      if IsPrefix(needle, s) {
        ReplaceWithItself(s[|needle|..], needle);
        assert s == s[..|needle|] + s[|needle|..];
      } else {
        ReplaceWithItself(s[1..], needle);
        assert s == [s[0]] + s[1..];
      }
    }
  }

  /** `implode($n, explode($n, $s)) == $s`. */
  lemma SplitJoinRoundTrip(s: string, needle: string)
    requires |needle| > 0
    ensures Join(Split(s, needle), needle) == s
  {
    ReplaceIsJoinOfSplit(s, needle, needle);
    ReplaceWithItself(s, needle);
  }

  lemma {:induction false} SplitPiecesFrom(s: string, needle: string, cur: string)
    requires |needle| > 0
    requires forall j :: 0 <= j < |cur| ==> !IsPrefix(needle, cur[j..] + s)
    ensures forall i :: 0 <= i < |SplitFrom(s, needle, cur)| ==> !Contains(SplitFrom(s, needle, cur)[i], needle)
    decreases |s|
  {
    var parts := SplitFrom(s, needle, cur);
    assert !Contains(cur, needle) by {
      forall j
        ensures !OccursAt(cur, needle, j)
      {
        if 0 <= j && j + |needle| <= |cur| {
          assert !IsPrefix(needle, cur[j..] + s);
          assert (cur[j..] + s)[..|needle|] == cur[j..j + |needle|];
        }
      }
    }
    if |s| == 0 {
    } else if IsPrefix(needle, s) {
      SplitPiecesFrom(s[|needle|..], needle, "");
      var rest := SplitFrom(s[|needle|..], needle, "");
      assert parts == [cur] + rest;
      forall i | 0 <= i < |parts|
        ensures !Contains(parts[i], needle)
      {
        if i > 0 {
          assert parts[i] == rest[i - 1];
        }
      }
    } else {
      var cur' := cur + [s[0]];
      forall j | 0 <= j < |cur'|
        ensures !IsPrefix(needle, cur'[j..] + s[1..])
      {
        if j < |cur| {
          assert cur'[j..] + s[1..] == cur[j..] + s;
        } else {
          assert cur'[j..] + s[1..] == s;
        }
      }
      SplitPiecesFrom(s[1..], needle, cur');
    }
  }

  /** No piece produced by `explode` contains the needle. */
  lemma SplitPiecesAvoidNeedle(s: string, needle: string)
    requires |needle| > 0
    ensures forall i :: 0 <= i < |Split(s, needle)| ==> !Contains(Split(s, needle)[i], needle)
  {
    SplitPiecesFrom(s, needle, "");
  }

  /** Scanning past a piece in which no occurrence of the needle starts only collects
      the piece. */
  lemma {:induction false} SplitFromSkips(p: string, rest: string, needle: string, cur: string)
    requires |needle| > 0
    requires forall j :: 0 <= j < |p| ==> !IsPrefix(needle, p[j..] + rest)
    ensures SplitFrom(p + rest, needle, cur) == SplitFrom(rest, needle, cur + p)
    decreases |p|
  {
    if |p| == 0 {
      assert p + rest == rest && cur + p == cur;
    } else {
      assert p[0..] == p;
      assert (p + rest)[1..] == p[1..] + rest;
      forall j | 0 <= j < |p[1..]|
        ensures !IsPrefix(needle, p[1..][j..] + rest)
      {
        assert p[1..][j..] == p[j + 1..];
      }
      SplitFromSkips(p[1..], rest, needle, cur + [p[0]]);
      assert cur + [p[0]] + p[1..] == cur + p;
    }
  }

  /** No occurrence of the needle starts inside a piece that does not contain it and
      ends with a character the needle lacks. */
  lemma PieceSkips(p: string, rest: string, needle: string)
    requires |needle| > 0 && !Contains(p, needle)
    requires |p| > 0 ==> p[|p| - 1] !in needle
    ensures forall j :: 0 <= j < |p| ==> !IsPrefix(needle, p[j..] + rest)
  {
    forall j | 0 <= j < |p|
      ensures !IsPrefix(needle, p[j..] + rest)
    {
      if |p| - j >= |needle| {
        assert !OccursAt(p, needle, j);
        assert (p[j..] + rest)[..|needle|] == p[j..j + |needle|];
      } else {
        var k := |p| - 1 - j;
        assert (p[j..] + rest)[k] == p[|p| - 1];
        assert needle[k] != p[|p| - 1];
      }
    }
  }

  /** `explode($n, implode($n, $parts)) == $parts` for a non-empty list of pieces that
      neither contain the needle nor end with one of its characters. */
  lemma {:induction false} JoinSplitRoundTrip(parts: seq<string>, needle: string)
    requires |needle| > 0 && |parts| > 0
    requires forall i :: 0 <= i < |parts| ==> !Contains(parts[i], needle)
    requires forall i :: 0 <= i < |parts| && |parts[i]| > 0 ==> parts[i][|parts[i]| - 1] !in needle
    ensures Split(Join(parts, needle), needle) == parts
    decreases |parts|
  {
    var p := parts[0];
    if |parts| == 1 {
      PieceSkips(p, "", needle);
      SplitFromSkips(p, "", needle, "");
      assert p + "" == p && "" + p == p;
    } else {
      var tail := Join(parts[1..], needle);
      var rest := needle + tail;
      assert Join(parts, needle) == p + rest;
      PieceSkips(p, rest, needle);
      SplitFromSkips(p, rest, needle, "");
      assert IsPrefix(needle, rest) && rest[|needle|..] == tail;
      JoinSplitRoundTrip(parts[1..], needle);
      assert "" + p == p;
      assert parts == [p] + parts[1..];
    }
  }
}
