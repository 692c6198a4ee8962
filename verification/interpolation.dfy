/**
 * Placeholder substitution in validation rules (`interpolateValidationRules`,
 * src/Validation.php): every `{name}` in a rule is replaced by the value of the
 * attribute `name`, so that a rule such as `unique:users,email,{id}` can exclude the
 * record being validated.
 *
 * The primary key is special: when it is absent or null its placeholder becomes the
 * literal `NULL`. Any other absent attribute is an undefined index, an error here.
 */
module Interpolation {
  import opened Wrappers
  import opened PhpValues
  import opened PhpArray
  import opened Text
  import opened Rules

  /** The first position of `c` in `s`. */
  function IndexOf(s: string, c: char): (r: Option<nat>)
    ensures r.Some? ==> r.value < |s| && s[r.value] == c && forall j :: 0 <= j < r.value ==> s[j] != c
    ensures r.None? ==> forall j :: 0 <= j < |s| ==> s[j] != c
    decreases |s|
  {
    if |s| == 0 then None
    else if s[0] == c then Some(0)
    else match IndexOf(s[1..], c)
      case None => None
      case Some(j) => Some(j + 1)
  }

  /** `IndexOf` finds the first occurrence. */
  lemma IndexOfIs(s: string, c: char, k: nat)
    requires k < |s| && s[k] == c && forall j :: 0 <= j < k ==> s[j] != c
    ensures IndexOf(s, c) == Some(k)
  {
  }

  lemma ContainsInSuffix(s: string, off: nat, p: string)
    requires off <= |s| && Contains(s[off..], p)
    ensures Contains(s, p)
  {
    var k :| OccursAt(s[off..], p, k);
    assert s[off + k..off + k + |p|] == s[off..][k..k + |p|];
    assert OccursAt(s, p, off + k);
  }

  lemma FirstPlaceholderOccurs(rule: string, i: nat, j: nat)
    requires i < |rule| && rule[i] == '{'
    requires j < |rule[i + 1..]| && rule[i + 1..][j] == '}'
    ensures Contains(rule, "{" + rule[i + 1..][..j] + "}")
  {
    var rest := rule[i + 1..];
    assert rule[i..i + j + 2] == [rule[i]] + rest[..j] + [rest[j]];
    assert OccursAt(rule, "{" + rest[..j] + "}", i);
  }

  /** The names between braces in a rule, left to right: each `{` is closed by the next
      `}`, and scanning resumes after it. */
  function Placeholders(rule: string): (names: seq<string>)
    ensures forall i :: 0 <= i < |names| ==> '}' !in names[i]
    ensures forall i :: 0 <= i < |names| ==> Contains(rule, "{" + names[i] + "}")
    ensures (forall j :: 0 <= j < |rule| ==> rule[j] != '{') ==> names == []
    decreases |rule|
  {
    match IndexOf(rule, '{')
    case None => []
    case Some(i) =>
      var rest := rule[i + 1..];
      match IndexOf(rest, '}')
      case None => []
      case Some(j) =>
        var more := Placeholders(rest[j + 1..]);
        PlaceholdersCons(rule, i, rest, j, more);
        [rest[..j]] + more
  }

  /** The name found first, ahead of the names found after it, are placeholders of the
      rule. */
  lemma PlaceholdersCons(rule: string, i: nat, rest: string, j: nat, more: seq<string>)
    requires i < |rule| && rule[i] == '{' && rest == rule[i + 1..]
    requires j < |rest| && rest[j] == '}' && forall x :: 0 <= x < j ==> rest[x] != '}'
    requires forall n :: 0 <= n < |more| ==> '}' !in more[n]
    requires forall n :: 0 <= n < |more| ==> Contains(rest[j + 1..], "{" + more[n] + "}")
    ensures forall n :: 0 <= n < |[rest[..j]] + more| ==> '}' !in ([rest[..j]] + more)[n]
    ensures forall n :: 0 <= n < |[rest[..j]] + more| ==> Contains(rule, "{" + ([rest[..j]] + more)[n] + "}")
  {
    var name := rest[..j];
    var names := [name] + more;
    var tail := rest[j + 1..];
    FirstPlaceholderOccurs(rule, i, j);
    assert tail == rule[i + j + 2..];
    assert '}' !in name by {
      assert forall x :: 0 <= x < |name| ==> name[x] == rest[x];
    }
    forall n | 0 <= n < |names|
      ensures '}' !in names[n] && Contains(rule, "{" + names[n] + "}")
    {
      if n > 0 {
        assert names[n] == more[n - 1];
        ContainsInSuffix(rule, i + j + 2, "{" + more[n - 1] + "}");
      }
    }
  }

  /** A placeholder that cannot be resolved: an absent attribute other than the key. */
  predicate Unresolvable(attrs: PArr<Scalar>, keyName: string, name: string) {
    !HasKey(attrs, StrK(name)) && name != keyName
  }

  /** The text that replaces `{name}`. */
  function Substitution(attrs: PArr<Scalar>, keyName: string, name: string): (r: Result<string, Notice>)
    ensures r.Failure? <==> Unresolvable(attrs, keyName, name)
    ensures r.Failure? ==> r.error == UndefinedIndex(StrK(name))
    ensures name == keyName && Get(attrs, StrK(name)).GetOr(SNull) == SNull ==> r == Success("NULL")
    ensures HasKey(attrs, StrK(name)) && (name != keyName || Get(attrs, StrK(name)).value != SNull) ==>
      r == Success(ToPhpString(Get(attrs, StrK(name)).value))
  {
    var value := Get(attrs, StrK(name));
    if (value.None? || value.value == SNull) && name == keyName then Success("NULL")
    else if value.None? then Failure(UndefinedIndex(StrK(name)))
    else Success(ToPhpString(value.value))
  }

  /** Replaces each listed placeholder in turn, every occurrence at once. */
  function SubstituteAll(rule: string, names: seq<string>, attrs: PArr<Scalar>, keyName: string): (r: Result<string, Notice>)
    decreases |names|
  {
    if |names| == 0 then Success(rule)
    else
      var value :- Substitution(attrs, keyName, names[0]);
      SubstituteAll(ReplaceAll(rule, "{" + names[0] + "}", value), names[1..], attrs, keyName)
  }

  /** One rule with its placeholders substituted. */
  function InterpolateRule(rule: string, attrs: PArr<Scalar>, keyName: string): Result<string, Notice> {
    SubstituteAll(rule, Placeholders(rule), attrs, keyName)
  }

  /** Every rule of the array interpolated; the keys stay as they are. */
  function InterpolateRules(rules: PArr<string>, attrs: PArr<Scalar>, keyName: string): (r: Result<PArr<string>, Notice>)
    ensures r.Success? ==> KeysOf(r.value) == KeysOf(rules)
    ensures r.Success? ==> forall i :: 0 <= i < |rules| ==> InterpolateRule(rules[i].1, attrs, keyName) == Success(r.value[i].1)
    decreases |rules|
  {
    if |rules| == 0 then Success([])
    else
      var done :- InterpolateRules(rules[..|rules| - 1], attrs, keyName);
      var rule :- InterpolateRule(rules[|rules| - 1].1, attrs, keyName);
      SnocInterpolated(rules, done, rule, attrs, keyName);
      Success(done + [(rules[|rules| - 1].0, rule)])
  }

  /** Interpolating the last rule after the others keeps every key and every entry
      interpolated. */
  lemma SnocInterpolated(rules: PArr<string>, done: PArr<string>, v: string, attrs: PArr<Scalar>, keyName: string)
    requires |rules| > 0 && KeysOf(done) == KeysOf(rules[..|rules| - 1])
    requires forall i :: 0 <= i < |rules| - 1 ==> InterpolateRule(rules[..|rules| - 1][i].1, attrs, keyName) == Success(done[i].1)
    requires InterpolateRule(rules[|rules| - 1].1, attrs, keyName) == Success(v)
    ensures KeysOf(done + [(rules[|rules| - 1].0, v)]) == KeysOf(rules)
    ensures forall i :: 0 <= i < |rules| ==>
      InterpolateRule(rules[i].1, attrs, keyName) == Success((done + [(rules[|rules| - 1].0, v)])[i].1)
  {
    var front := rules[..|rules| - 1];
    var e := rules[|rules| - 1];
    var out := done + [(e.0, v)];
    assert rules == front + [e];
    SnocKeys(front, done, e, v);
    forall i | 0 <= i < |rules|
      ensures InterpolateRule(rules[i].1, attrs, keyName) == Success(out[i].1)
    {
      if i < |front| {
        assert rules[i] == front[i] && out[i] == done[i];
      }
    }
  }

  /** Appending an entry and a value under its key keeps the keys in step. */
  lemma SnocKeys(front: seq<(Key, string)>, done: seq<(Key, string)>, e: (Key, string), v: string)
    requires KeysOf(done) == KeysOf(front)
    ensures KeysOf(done + [(e.0, v)]) == KeysOf(front + [e])
  {
    var l := KeysOf(done + [(e.0, v)]);
    var r := KeysOf(front + [e]);
    assert |done| == |KeysOf(done)| == |front|;
    forall i | 0 <= i < |l|
      ensures l[i] == r[i]
    {
      if i < |done| {
        assert KeysOf(done)[i] == KeysOf(front)[i];
      }
    }
  }

  /** Substitution fails exactly when some listed name is unresolvable. */
  lemma {:induction false} SubstituteAllFails(rule: string, names: seq<string>, attrs: PArr<Scalar>, keyName: string)
    ensures SubstituteAll(rule, names, attrs, keyName).Failure? <==>
      exists i :: 0 <= i < |names| && Unresolvable(attrs, keyName, names[i])
    decreases |names|
  {
    if |names| > 0 {
      var s := Substitution(attrs, keyName, names[0]);
      if s.Success? {
        SubstituteAllFails(ReplaceAll(rule, "{" + names[0] + "}", s.value), names[1..], attrs, keyName);
        if exists i :: 0 <= i < |names| && Unresolvable(attrs, keyName, names[i]) {
          var i :| 0 <= i < |names| && Unresolvable(attrs, keyName, names[i]);
          assert names[1..][i - 1] == names[i];
        }
      }
    }
  }

  /** A rule names an absent attribute other than the primary key. */
  predicate RuleUnresolvable(rule: string, attrs: PArr<Scalar>, keyName: string) {
    exists n :: 0 <= n < |Placeholders(rule)| && Unresolvable(attrs, keyName, Placeholders(rule)[n])
  }

  lemma InterpolateRuleFails(rule: string, attrs: PArr<Scalar>, keyName: string)
    ensures InterpolateRule(rule, attrs, keyName).Failure? <==> RuleUnresolvable(rule, attrs, keyName)
  {
    SubstituteAllFails(rule, Placeholders(rule), attrs, keyName);
  }

  /** Interpolation fails exactly when a rule names an absent attribute other than the
      primary key. */
  lemma {:induction false} InterpolateFailsIff(rules: PArr<string>, attrs: PArr<Scalar>, keyName: string)
    ensures InterpolateRules(rules, attrs, keyName).Failure? <==>
      exists i :: 0 <= i < |rules| && RuleUnresolvable(rules[i].1, attrs, keyName)
    decreases |rules|
  {
    if |rules| > 0 {
      var front: PArr<string> := rules[..|rules| - 1];
      var last := rules[|rules| - 1].1;
      InterpolateFailsIff(front, attrs, keyName);
      InterpolateRuleFails(last, attrs, keyName);
      if exists i :: 0 <= i < |rules| && RuleUnresolvable(rules[i].1, attrs, keyName) {
        var i :| 0 <= i < |rules| && RuleUnresolvable(rules[i].1, attrs, keyName);
        if i < |front| {
          assert front[i] == rules[i];
        }
      }
      if exists i :: 0 <= i < |front| && RuleUnresolvable(front[i].1, attrs, keyName) {
        var i :| 0 <= i < |front| && RuleUnresolvable(front[i].1, attrs, keyName);
        assert front[i] == rules[i];
      }
    }
  }

  /** A rule without braces passes through unchanged. */
  lemma BraceFreeUnchanged(rule: string, attrs: PArr<Scalar>, keyName: string)
    requires forall j :: 0 <= j < |rule| ==> rule[j] != '{'
    ensures InterpolateRule(rule, attrs, keyName) == Success(rule)
  {
  }

  /** A rule whose only placeholder is the primary key's gets `NULL` for an absent or
      null key, and the key's value otherwise. */
  lemma KeyPlaceholder(rule: string, attrs: PArr<Scalar>, keyName: string)
    requires Placeholders(rule) == [keyName]
    ensures Get(attrs, StrK(keyName)).GetOr(SNull) == SNull ==>
      InterpolateRule(rule, attrs, keyName) == Success(ReplaceAll(rule, "{" + keyName + "}", "NULL"))
    ensures Get(attrs, StrK(keyName)).GetOr(SNull) != SNull ==>
      InterpolateRule(rule, attrs, keyName) == Success(ReplaceAll(rule, "{" + keyName + "}", ToPhpString(Get(attrs, StrK(keyName)).value)))
  {
    var names := [keyName];
    var v := Substitution(attrs, keyName, keyName);
    assert v.Success?;
    assert names[1..] == [];
    assert SubstituteAll(rule, names, attrs, keyName) == SubstituteAll(ReplaceAll(rule, "{" + keyName + "}", v.value), [], attrs, keyName);
  }

  /** A rule with one placeholder, at its end. */
  lemma OnePlaceholder(prefix: string, name: string)
    requires forall j :: 0 <= j < |prefix| ==> prefix[j] != '{'
    requires forall j :: 0 <= j < |name| ==> name[j] != '}'
    ensures Placeholders(prefix + "{" + name + "}") == [name]
  {
    var rule := prefix + "{" + name + "}";
    IndexOfIs(rule, '{', |prefix|);
    var rest := rule[|prefix| + 1..];
    assert rest == name + "}";
    IndexOfIs(rest, '}', |name|);
    assert rest[|name| + 1..] == "";
    assert Placeholders("") == [];
    assert rest[..|name|] == name;
    assert Placeholders(rule) == [rest[..|name|]] + Placeholders(rest[|name| + 1..]);
  }

  /** A rule ending in the primary key's placeholder, for a record without a key,
      ends in `NULL` instead: `unique:users,email,{id}` becomes
      `unique:users,email,NULL`. */
  lemma KeyAtEndBecomesNull(prefix: string, attrs: PArr<Scalar>, keyName: string)
    requires forall j :: 0 <= j < |prefix| ==> prefix[j] != '{'
    requires forall j :: 0 <= j < |keyName| ==> keyName[j] != '}'
    requires Get(attrs, StrK(keyName)).GetOr(SNull) == SNull
    ensures InterpolateRule(prefix + "{" + keyName + "}", attrs, keyName) == Success(prefix + "NULL")
  {
    var needle := "{" + keyName + "}";
    var rule := prefix + needle;
    assert rule == prefix + "{" + keyName + "}";
    OnePlaceholder(prefix, keyName);
    KeyPlaceholder(rule, attrs, keyName);
    assert rule[|prefix|..] == needle && rule[..|prefix|] == prefix;
    assert forall j :: 0 <= j < |prefix| ==> rule[j] == prefix[j];
    ReplaceAllPrefixFree(rule, needle, "NULL", |prefix|);
  }

  lemma UniqueRuleExample(email: string)
    ensures InterpolateRule("unique:users,email,{id}", [(StrK("email"), SStr(email))], "id") == Success("unique:users,email,NULL")
  {
    var attrs: PArr<Scalar> := [(StrK("email"), SStr(email))];
    assert !HasKey(attrs, StrK("id"));
    UniqueRuleText();
    KeyAtEndBecomesNull("unique:users,email,", attrs, "id");
  }

  lemma UniqueRuleText()
    ensures forall j :: 0 <= j < |"unique:users,email,"| ==> "unique:users,email,"[j] != '{'
    ensures forall j :: 0 <= j < |"id"| ==> "id"[j] != '}'
    ensures "unique:users,email," + "{" + "id" + "}" == "unique:users,email,{id}"
    ensures "unique:users,email," + "NULL" == "unique:users,email,NULL"
  {
  }

  /** `str_replace` on a text whose only occurrence of the needle ends it, at `k`. */
  lemma {:induction false} ReplaceAllPrefixFree(s: string, needle: string, rep: string, k: nat)
    requires |needle| > 0 && k + |needle| == |s|
    requires forall j :: 0 <= j < k ==> s[j] != needle[0]
    requires s[k..] == needle
    ensures ReplaceAll(s, needle, rep) == s[..k] + rep
    decreases k
  {
    if k == 0 {
      assert IsPrefix(needle, s);
      assert s[|needle|..] == "";
    } else {
      var tail := s[1..];
      assert tail[k - 1..] == s[k..];
      ReplaceAllPrefixFree(tail, needle, rep, k - 1);
      ReplaceAllSkip(s, needle, rep);
      assert s[..k] == [s[0]] + tail[..k - 1];
    }
  }

  /** `str_replace` copies a first character that cannot start the needle. */
  lemma ReplaceAllSkip(s: string, needle: string, rep: string)
    requires |needle| > 0 && |s| > 0 && s[0] != needle[0]
    ensures ReplaceAll(s, needle, rep) == [s[0]] + ReplaceAll(s[1..], needle, rep)
  {
    if |needle| <= |s| {
      assert s[..|needle|][0] == s[0];
    }
  }
}
