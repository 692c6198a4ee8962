/**
 * The validation engine (`validate`, src/Validation.php).
 *
 * A persisted model is checked on its dirty attributes against the rules for those
 * attributes; a new model is checked on the attributes passed in against all rules.
 * The rules' placeholders are interpolated, the Laravel validator runs, then each extra
 * validation method in turn. All messages are collected, the validator's first, and one
 * exception carrying them is raised when there is at least one.
 *
 * The Laravel validator and the extra validation methods are parameters.
 */
module Validation {
  import opened Wrappers
  import opened PhpValues
  import opened PhpArray
  import opened Rules
  import opened Interpolation
  import opened Store

  /** What the Laravel validator reports: `fails()` and `messages()->all()`. */
  datatype Verdict = Verdict(fails: bool, messages: seq<string>)

  /** A `Validation` object: the rules and key name of the repository's model, the
      validator, and the extra validation methods (`$validations`), in order. */
  datatype Config = Config(
    provider: RuleProvider,
    keyName: string,
    validator: (PArr<Scalar>, PArr<string>) -> Verdict,
    validations: seq<PArr<Scalar> -> Scalar>)

  /** The outcome of a failed validation: the exception with its messages, or a notice
      raised on the way. */
  datatype ValidationError = Invalid(messages: seq<Scalar>) | Raised(notice: Notice)

  /** The attribute map that is checked. */
  function CheckedAttributes(m: Model, attrs: PArr<Scalar>): (a: PArr<Scalar>)
    ensures m.persisted ==> a == Dirty(m)
    ensures !m.persisted ==> a == attrs
  {
    if m.persisted then Dirty(m) else attrs
  }

  /** `rules(array_keys($attributes), 'update')` for a persisted model,
      `rules(null, 'create')` for a new one. */
  function SelectedRules(p: RuleProvider, m: Model, a: PArr<Scalar>): (r: Result<PArr<string>, Notice>)
    ensures r.Failure? <==> p.declared.None?
    ensures r.Success? && !m.persisted ==> r.value == p.declared.value
    ensures r.Success? && m.persisted ==> forall k :: Get(r.value, k) == if HasKey(a, k) then Get(p.declared.value, k) else None
  {
    var r := RulesArray(p, if m.persisted then Some(KeysOf(a)) else None, if m.persisted then UpdateOperation else CreateOperation);
    assert forall k :: k in KeysOf(a) <==> HasKey(a, k) by {
      forall k
        ensures k in KeysOf(a) <==> HasKey(a, k)
      {
        if k in KeysOf(a) {
          var i :| 0 <= i < |KeysOf(a)| && KeysOf(a)[i] == k;
          assert a[i].0 == k;
        }
        if HasKey(a, k) {
          var i :| 0 <= i < |a| && a[i].0 == k;
          assert KeysOf(a)[i] == k;
        }
      }
    }
    r
  }

  /** The messages of the extra validation methods: each truthy result, in order. */
  function ExtraMessages(validations: seq<PArr<Scalar> -> Scalar>, a: PArr<Scalar>): (ms: seq<Scalar>)
    ensures |ms| <= |validations|
    ensures forall i :: 0 <= i < |ms| ==> Truthy(ms[i])
    decreases |validations|
  {
    if |validations| == 0 then []
    else
      var ms := ExtraMessages(validations[..|validations| - 1], a);
      var m := validations[|validations| - 1](a);
      if Truthy(m) then ms + [m] else ms
  }

  /** The validator's messages, when it fails. */
  function ValidatorMessages(v: Verdict): (ms: seq<Scalar>)
    ensures |ms| == (if v.fails then |v.messages| else 0)
    ensures forall i :: 0 <= i < |ms| ==> ms[i] == SStr(v.messages[i])
  {
    if v.fails then seq(|v.messages|, i requires 0 <= i < |v.messages| => SStr(v.messages[i])) else []
  }

  /** Everything collected before the decision to throw. */
  function Messages(cfg: Config, m: Model, attrs: PArr<Scalar>): (r: Result<seq<Scalar>, Notice>)
    ensures r.Failure? <==> (SelectedRules(cfg.provider, m, CheckedAttributes(m, attrs)).Failure? ||
      InterpolateRules(SelectedRules(cfg.provider, m, CheckedAttributes(m, attrs)).value, CheckedAttributes(m, attrs), cfg.keyName).Failure?)
    ensures r.Success? ==> (r.value ==
      ValidatorMessages(cfg.validator(CheckedAttributes(m, attrs),
        InterpolateRules(SelectedRules(cfg.provider, m, CheckedAttributes(m, attrs)).value, CheckedAttributes(m, attrs), cfg.keyName).value))
      + ExtraMessages(cfg.validations, CheckedAttributes(m, attrs)))
  {
    var a := CheckedAttributes(m, attrs);
    var rules :- SelectedRules(cfg.provider, m, a);
    var interpolated :- InterpolateRules(rules, a, cfg.keyName);
    Success(ValidatorMessages(cfg.validator(a, interpolated)) + ExtraMessages(cfg.validations, a))
  }

  /** `validate($model, $attributes = [])`: throws exactly when a message was collected. */
  function Validate(cfg: Config, m: Model, attrs: PArr<Scalar>): (r: Result<(), ValidationError>)
    ensures r.Success? <==> Messages(cfg, m, attrs) == Success([])
    ensures r.Failure? && r.error.Invalid? ==> Messages(cfg, m, attrs) == Success(r.error.messages) && |r.error.messages| > 0
    ensures r.Failure? && r.error.Raised? ==> Messages(cfg, m, attrs) == Failure(r.error.notice)
  {
    match Messages(cfg, m, attrs)
    case Failure(n) => Failure(Raised(n))
    case Success(ms) => if |ms| > 0 then Failure(Invalid(ms)) else Success(())
  }

  // ---------------------------------------------------------------------------------
  // Properties

  /** The extra methods' messages keep the methods' order. */
  lemma {:induction false} ExtraMessagesAppend(x: seq<PArr<Scalar> -> Scalar>, y: seq<PArr<Scalar> -> Scalar>, a: PArr<Scalar>)
    ensures ExtraMessages(x + y, a) == ExtraMessages(x, a) + ExtraMessages(y, a)
    decreases |y|
  {
    if |y| == 0 {
      assert x + y == x;
    } else {
      assert (x + y)[..|x + y| - 1] == x + y[..|y| - 1];
      assert (x + y)[|x + y| - 1] == y[|y| - 1];
      ExtraMessagesAppend(x, y[..|y| - 1], a);
    }
  }

  /** The extra methods add nothing exactly when every one of them returns a falsy value. */
  lemma {:induction false} ExtraMessagesEmpty(validations: seq<PArr<Scalar> -> Scalar>, a: PArr<Scalar>)
    ensures ExtraMessages(validations, a) == [] <==> forall i :: 0 <= i < |validations| ==> !Truthy(validations[i](a))
    decreases |validations|
  {
    if |validations| > 0 {
      var front := validations[..|validations| - 1];
      ExtraMessagesEmpty(front, a);
      assert forall i :: 0 <= i < |front| ==> front[i] == validations[i];
    }
  }

  /** Validation passes exactly when the rules resolve, the validator either passes or
      fails without a message, and every extra method returns a falsy value. */
  lemma ValidatePasses(cfg: Config, m: Model, attrs: PArr<Scalar>)
    ensures Validate(cfg, m, attrs).Success? <==>
      var a := CheckedAttributes(m, attrs);
      var sel := SelectedRules(cfg.provider, m, a);
      && sel.Success?
      && (forall i :: 0 <= i < |sel.value| ==> !RuleUnresolvable(sel.value[i].1, a, cfg.keyName))
      && InterpolateRules(sel.value, a, cfg.keyName).Success?
      && ValidatorMessages(cfg.validator(a, InterpolateRules(sel.value, a, cfg.keyName).value)) == []
      && (forall i :: 0 <= i < |cfg.validations| ==> !Truthy(cfg.validations[i](a)))
  {
    var a := CheckedAttributes(m, attrs);
    var sel := SelectedRules(cfg.provider, m, a);
    if sel.Success? {
      InterpolateFailsIff(sel.value, a, cfg.keyName);
    }
    ExtraMessagesEmpty(cfg.validations, a);
  }

  /** A persisted model is checked on its own changes: the attributes passed in do not
      matter. */
  lemma PersistedIgnoresPassedAttributes(cfg: Config, m: Model, a1: PArr<Scalar>, a2: PArr<Scalar>)
    requires m.persisted
    ensures Validate(cfg, m, a1) == Validate(cfg, m, a2)
  {
  }

  /** A new model is checked on the attributes passed in: its own attributes do not
      matter. */
  lemma NewModelIgnoresOwnAttributes(cfg: Config, m1: Model, m2: Model, attrs: PArr<Scalar>)
    requires !m1.persisted && !m2.persisted
    ensures Validate(cfg, m1, attrs) == Validate(cfg, m2, attrs)
  {
  }

  /** A persisted model without changes is checked against no rules at all. */
  lemma CleanModelHasNoRules(cfg: Config, m: Model, attrs: PArr<Scalar>)
    requires m.persisted && Dirty(m) == [] && cfg.provider.declared.Some?
    ensures SelectedRules(cfg.provider, m, CheckedAttributes(m, attrs)) == Success([])
  {
    var r := SelectedRules(cfg.provider, m, CheckedAttributes(m, attrs)).value;
    if |r| > 0 {
      GetAt(r, 0);
    }
  }
}
