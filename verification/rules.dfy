/**
 * The rule provider models use (src/ValidatingTrait.php): `defaultRules`, `createRules`,
 * `updateRules` and `rules($key, $operation)`.
 *
 * A model class may or may not declare a `$rules` property. Reading an undeclared
 * property, or a missing key of the rule array, raises a PHP notice; the model treats
 * both as errors (`Notice`).
 */
module Rules {
  import opened Wrappers
  import opened PhpValues
  import opened PhpArray

  /** The `$rules` property of the model class, when it declares one. */
  datatype RuleProvider = RuleProvider(declared: Option<PArr<string>>)

  /** The `$operation` argument of `rules`: none, `'create'` or `'update'`. */
  datatype Operation = NoOperation | CreateOperation | UpdateOperation

  /** The notices the rule lookup and the placeholder substitution can raise. */
  datatype Notice = UndefinedProperty | UndefinedIndex(key: Key)

  /** `defaultRules()`: the declared rules, or no rules. */
  function DefaultRules(p: RuleProvider): (r: PArr<string>)
    ensures p.declared.Some? ==> r == p.declared.value
    ensures p.declared.None? ==> r == []
  {
    if p.declared.Some? then p.declared.value else []
  }

  /** `createRules()`. */
  function CreateRules(p: RuleProvider): PArr<string> {
    DefaultRules(p)
  }

  /** `updateRules()`. */
  function UpdateRules(p: RuleProvider): PArr<string> {
    DefaultRules(p)
  }

  /** The rules `rules()` fetches for the operation, `{$operation}Rules()`. */
  function OperationRules(p: RuleProvider, op: Operation): PArr<string> {
    match op
    case NoOperation => DefaultRules(p)
    case CreateOperation => CreateRules(p)
    case UpdateOperation => UpdateRules(p)
  }

  /** Create and update rules are both the default rules. */
  lemma OperationRulesAgree(p: RuleProvider, op: Operation)
    ensures OperationRules(p, op) == DefaultRules(p)
    ensures CreateRules(p) == UpdateRules(p)
  {
  }

  /** `rules(null, $op)` and `rules($keys, $op)`: the whole `$rules` property, or its
      entries for the listed keys. The operation's rule set is fetched and discarded,
      so it has no influence. */
  function RulesArray(p: RuleProvider, keys: Option<seq<Key>>, op: Operation): (r: Result<PArr<string>, Notice>)
    ensures r.Failure? <==> p.declared.None?
    ensures r.Failure? ==> r.error == UndefinedProperty
    ensures r.Success? && keys.None? ==> r.value == p.declared.value
    ensures r.Success? && keys.Some? ==> forall k :: Get(r.value, k) == if k in keys.value then Get(p.declared.value, k) else None
    ensures r.Success? && keys.Some? ==> forall i :: 0 <= i < |r.value| ==> exists j :: 0 <= j < |p.declared.value| && p.declared.value[j] == r.value[i]
  {
    var _ := OperationRules(p, op);
    if p.declared.None? then Failure(UndefinedProperty)
    else if keys.None? then Success(p.declared.value)
    else
      var rules := p.declared.value;
      forall k
        ensures Get(Only(rules, keys.value), k) == if k in keys.value then Get(rules, k) else None
      {
        OnlyGet(rules, keys.value, k);
      }
      Success(Only(rules, keys.value))
  }

  /** `rules($key, $op)` for a single key: that key's rule; a missing key is an
      undefined index. */
  function RuleOf(p: RuleProvider, key: Key, op: Operation): (r: Result<string, Notice>)
    ensures r.Success? <==> p.declared.Some? && HasKey(p.declared.value, key)
    ensures r.Success? ==> Get(p.declared.value, key) == Some(r.value)
    ensures p.declared.None? ==> r == Failure(UndefinedProperty)
    ensures p.declared.Some? && !HasKey(p.declared.value, key) ==> r == Failure(UndefinedIndex(key))
  {
    var _ := OperationRules(p, op);
    if p.declared.None? then Failure(UndefinedProperty)
    else match Get(p.declared.value, key)
      case Some(rule) => Success(rule)
      case None => Failure(UndefinedIndex(key))
  }

  /** The operation never changes which rules are returned. */
  lemma RulesIgnoreOperation(p: RuleProvider, keys: Option<seq<Key>>, key: Key, op1: Operation, op2: Operation)
    ensures RulesArray(p, keys, op1) == RulesArray(p, keys, op2)
    ensures RuleOf(p, key, op1) == RuleOf(p, key, op2)
  {
  }
}
