# base-repository in Dafny

A model of the repository layer of `sedp-mis/base-repository`, a Laravel package. The layer sits between an application and its Eloquent models. The model covers four parts:

- **The query specification.** The builder methods `with`, `has`, `hasRelations`, `filters`, `sort`, `limit`, `offset` and `attributes` accumulate a specification. `prepareQuery` compiles it into calls on the Eloquent builder, in a fixed order: eager loads, has-relations, filters, sort, limit/offset. The reads (`get`, `paginate`, `search`, and the reads that only eager-load) decide how much of it they apply.
- **The write methods.** `create`, `createMany`, `update`, `updateMany`, `save`, `saveMany` and `delete` run over one table with an auto-incrementing key. Each one validates before it writes.
- **The validation engine.** It picks the attributes to check and the rules to check them against. It fills `{attribute}` placeholders in the rules, runs the validator and the extra validation methods, and raises one exception carrying every message.
- **The branch repository.** Its save hook stamps branch models with a branch id. The id comes from the repository, or from the session when the repository holds none.

Modules, in dependency order:

| module | file | contents |
|---|---|---|
| `Wrappers` | wrappers.dfy | `Option` and `Result` |
| `PhpValues` | php_values.dfy | array keys, scalars, truthiness, `is_numeric`, `(string)` |
| `PhpArray` | php_array.dfy | PHP ordered arrays as sequences of key/value pairs with distinct keys; assignment, `array_merge`, `array_only` |
| `Text` | text.dfy | `implode`, `explode`, `str_replace` |
| `QuerySpec` | query_spec.dfy | the builder state and its setters |
| `QueryCompile` | query_compile.dfy | the compiled instruction list (`prepareQuery` and its parts) |
| `Evaluate` | evaluate.dfy | what a compiled instruction list selects and how it orders, over rows in memory |
| `Search` | search.dfy | the `search` clause and the `LIKE` meaning of its pattern |
| `Reads` | reads.dfy | which reads apply which part of the specification |
| `Rules` | rules.dfy | the rule provider of models (`ValidatingTrait`) |
| `Interpolation` | interpolation.dfy | placeholder substitution in rules |
| `Store` | store.dfy | model instances, dirty tracking, one table, save and destroy |
| `Branch` | branch.dfy | the branch repository's id and save hook |
| `Validation` | validation.dfy | `validate` |
| `Persistence` | persistence.dfy | the write methods |

Three behaviours of the code are easy to miss; the model follows the code:

- **Builder state is never reset.** Nothing clears the state between reads, so a filter set for one read applies to every later one. `QuerySpec.RunNeverForgets` states this.
- **`rules(null, $operation)` returns the whole `$rules` property.** It computes the operation's rule set and throws it away (`Rules.RulesIgnoreOperation`).
- **`delete` of models reads a fixed `id` attribute.** It does not use the model's key name (`Persistence.CollectionDeletesById`).

PHP notices, such as an undefined property or an undefined index, are errors in the model (`Rules.Notice`). An exception leaves the table as it was when the exception was raised. The batch methods therefore keep what their earlier items wrote (`Persistence.Outcome`).

## Model

| member | source | states |
|---|---|---|
| PhpValues.NotNumericByFirst | src/BaseRepositoryEloquent.php:495 | a string that starts with a letter or an operator symbol is not numeric, so such an operator key is never read as `equals` |
| PhpValues.IntToStringInjective | src/BaseRepositoryEloquent.php:344 | distinct integers have distinct decimal strings |
| PhpValues.KeyEqUnique | src/BaseRepositoryEloquent.php:344 | an id loosely equals at most one integer key |
| PhpArray.MergeMatchesSpec | src/BaseRepositoryEloquent.php:149 | `array_merge` computed entry by entry equals the declarative description: the first array with its integer keys renumbered from 0 and its string keys overwritten in place, then the second array's integer-keyed entries and new string keys, renumbered |
| PhpArray.MergeStringKey | src/BaseRepositoryEloquent.php:602 | after a merge, a string key reads the second array's value when it has the key, the first array's otherwise |
| PhpArray.MergeKeepsPositions | src/BaseRepositoryEloquent.php:615 | a merge keeps every entry of the first array at its position (integer keys renumbered) and appends the second array's fresh entries after them |
| PhpArray.MergeSingleton | src/BaseRepositoryEloquent.php:147-149 | merging a one-element list appends its value under the next integer key |
| PhpArray.OnlyGet | src/ValidatingTrait.php:57 | `array_only` keeps a key's value exactly when the key is listed; every other key reads as absent |
| PhpArray.SetAllGet | src/BaseRepositoryEloquent.php:318 | assigning an array's entries in turn makes each of its keys read its value and leaves the other keys alone |
| PhpArray.GetSet | src/BaseRepositoryEloquent.php:454 | assigning one key changes that key only |
| QuerySpec.With | src/BaseRepositoryEloquent.php:145-152 | `with` merges the (wrapped) relations: each named relation reads the new entry if given, the old one otherwise; no entry is lost; nothing else in the state changes |
| QuerySpec.WithOneAppends | src/BaseRepositoryEloquent.php:147-149 | `with('name')` appends the name under the next integer key after the existing relations |
| QuerySpec.Has | src/BaseRepositoryEloquent.php:452-457 | `has` sets the relation's entry to (operator, count), keeps its position when it already existed, and changes nothing else |
| QuerySpec.HasDefault | src/BaseRepositoryEloquent.php:452 | `has($relation)` constrains with `>=` 1 |
| QuerySpec.HasRelations | src/BaseRepositoryEloquent.php:600-605 | `hasRelations` merges: new entries win, string-keyed entries keep their positions |
| QuerySpec.Filters | src/BaseRepositoryEloquent.php:613-618 | `filters` merges: a column's new filter replaces the old one in place, other columns keep theirs |
| QuerySpec.Sort | src/BaseRepositoryEloquent.php:626-631 | `sort` merges: a column's new direction replaces the old one in place |
| QuerySpec.Limit | src/BaseRepositoryEloquent.php:639-646 | `limit` ignores a zero argument and otherwise sets the limit; nothing else changes |
| QuerySpec.Offset | src/BaseRepositoryEloquent.php:654-661 | `offset` ignores a zero argument and otherwise sets the offset; nothing else changes |
| QuerySpec.SetAttributes | src/BaseRepositoryEloquent.php:588-593 | `attributes` replaces the default projection and nothing else |
| QuerySpec.ApplyKeeps | src/BaseRepositoryEloquent.php:452-661 | no single builder call removes a relation, has-relation, filter or sort key, or makes a non-zero limit or offset zero |
| QuerySpec.RunNeverForgets | src/BaseRepositoryEloquent.php:452-661 | the same holds for any sequence of builder calls: the state only grows |
| QuerySpec.SortKeepsPriority | src/BaseRepositoryEloquent.php:626-631 | sorting again on a column already sorted on changes its direction but not its place among the sort keys |
| QueryCompile.EagerLoadsMeaning | src/BaseRepositoryEloquent.php:101-137 | eager loading fails exactly when an integer-keyed entry carries an `attributes` list; otherwise each entry becomes a bare relation (integer key or no `attributes`) or a projected relation under its own name |
| QueryCompile.SelectedColumns | src/BaseRepositoryEloquent.php:116-127 | a projected relation selects its listed columns, plus the parent's foreign key at the end exactly when the relation is has-one-or-many and the key is not already listed |
| QueryCompile.HasInstrs | src/BaseRepositoryEloquent.php:466-476 | one `has` call per has-relation entry, in order, with its operator and count |
| QueryCompile.ReplaceOperatorAlias | src/BaseRepositoryEloquent.php:522-532 | `e`, `ne`, `n`, `nn` become `equals`, `not_equals`, `null`, `not_null`; every other operator is unchanged |
| QueryCompile.AliasIdempotent | src/BaseRepositoryEloquent.php:522-532 | replacing aliases twice equals replacing them once |
| QueryCompile.OperatorOf | src/BaseRepositoryEloquent.php:495-497 | an integer operator key means `equals`; a non-numeric string key goes through alias replacement |
| QueryCompile.Values | src/BaseRepositoryEloquent.php:493 | a non-array operand becomes a one-element list |
| QueryCompile.Head | src/BaseRepositoryEloquent.php:508 | `head` is the first value, or false for an empty list |
| QueryCompile.FilterInstr | src/BaseRepositoryEloquent.php:499-509 | `equals` tests membership in the whole value list, `not_equals` non-membership, `null`/`not_null` ignore the values, any other operator compares with the first value only |
| QueryCompile.FilterOps | src/BaseRepositoryEloquent.php:490 | a non-array filter is wrapped under key 0, which means equality |
| QueryCompile.OpInstrs | src/BaseRepositoryEloquent.php:492-510 | one call per operator of a column, in the operators' order |
| QueryCompile.FilterInstrs | src/BaseRepositoryEloquent.php:484-514 | the filter stage issues only filter calls |
| QueryCompile.BareIsEquality | src/BaseRepositoryEloquent.php:490-500 | a bare filter value compiles to `whereIn` on that one value |
| QueryCompile.SortInstrs | src/BaseRepositoryEloquent.php:541-550 | one `orderBy` per sort key, in insertion order |
| QueryCompile.LimitInstrs | src/BaseRepositoryEloquent.php:560-570 | take and skip are issued together, and only for a non-zero limit |
| QueryCompile.SplitPrepared | src/BaseRepositoryEloquent.php:688-706 | a compiled query is one eager load, then the has-relation, filter, sort and take/skip blocks, each block of one phase, with one instruction per has-relation and per sort key |
| QueryCompile.PrepareOrder | src/BaseRepositoryEloquent.php:688-706 | compilation fails exactly when eager loading does or when a filter pairs a known operator other than `=` with a null value (the builder's "Value must be provided."); otherwise the instructions start with the eager load and their stages never go backwards |
| QueryCompile.PrepareCounts | src/BaseRepositoryEloquent.php:688-706 | a compiled query holds exactly one eager load, one has call per has-relation, one `orderBy` per sort key, and two or zero limit calls |
| QueryCompile.OffsetIgnoredWithoutLimit | src/BaseRepositoryEloquent.php:560-569 | without a limit no take or skip is issued, whatever the offset |
| QueryCompile.FinalAttributes | src/BaseRepositoryEloquent.php:724-733 | an empty list or `['*']` selects the default projection; any other list is used as given |
| Evaluate.Select | src/BaseRepositoryEloquent.php:488-511 | a query keeps exactly the rows satisfying all its filter calls, where `= null` keeps the NULL rows, strings are ordered character by character and `like` matches the SQL pattern |
| Evaluate.FiltersConjunctive | src/BaseRepositoryEloquent.php:488-511 | a row passes the compiled filters exactly when it satisfies every (column, operator) pair of the filter map |
| Evaluate.PreparedSelection | src/BaseRepositoryEloquent.php:688-706 | the compiled query selects exactly the rows satisfying every filter pair; eager loads, has calls, sort and limit do not filter here |
| Evaluate.SortKeysOfSort | src/BaseRepositoryEloquent.php:545-547 | the sort calls order by the sort keys exactly, in order |
| Evaluate.PreparedSortKeys | src/BaseRepositoryEloquent.php:541-550 | a compiled query orders by the sort keys in insertion order and by nothing else |
| Evaluate.XpEqualsExample | src/BaseRepositoryEloquent.php:499-500 | over xp values 172, 57, 352, `e => [352, 57]` keeps the rows with 57 and 352 |
| Evaluate.XpNotEqualsExample | src/BaseRepositoryEloquent.php:501-502 | `ne => [352, 57]` keeps the row with 172 |
| Evaluate.XpGreaterExample | src/BaseRepositoryEloquent.php:507-508 | `> 100` keeps the rows with 172 and 352 |
| Evaluate.XpLiteralEqualsExample | src/BaseRepositoryEloquent.php:507-508 | `= [352, 57]` compares with 352 only and keeps one row |
| Evaluate.XpListExample | src/BaseRepositoryEloquent.php:490-500 | `xp => [352, 57]` is two equalities ANDed and keeps no row |
| Evaluate.SortExamples | src/BaseRepositoryEloquent.php:545-547 | sorting by name then xp descending is lexicographic over the keys |
| Evaluate.DirectionExamples | src/BaseRepositoryEloquent.php:545-547 | the builder lower-cases the direction and only `asc` sorts ascending: `Asc` is ascending, `DESC` and any other word descending |
| Evaluate.StringCompareExamples | src/BaseRepositoryEloquent.php:507-508 | `where` with `>`, `<=` or `>=` orders strings character by character; `like` matches the pattern and `not like` is false on null |
| QueryCompile.RefusedPairIsWhere | src/BaseRepositoryEloquent.php:507-508 | a pair the builder refuses for its null value is a plain `where` call with that operator and null |
| Evaluate.NullEqualsHolds | src/BaseRepositoryEloquent.php:507-508 | `where($c, '=', null)` holds exactly on rows whose column is NULL, as the builder's `whereNull` |
| Evaluate.NullEqualsSelects | src/BaseRepositoryEloquent.php:488-511 | `filters(['deleted_at' => ['=' => null]])` compiles and keeps exactly the rows whose `deleted_at` is NULL |
| Evaluate.RefusedOperator | src/BaseRepositoryEloquent.php:507-508 | a known builder operator other than `=` that no special operator name or numeric key catches reaches `where` with null and is refused |
| Evaluate.NullRefused | src/BaseRepositoryEloquent.php:507-508 | a filter pair the builder refuses makes compilation fail with "Value must be provided." |
| Evaluate.NullFilterExamples | src/BaseRepositoryEloquent.php:507-508 | `= null` keeps the NULL rows while `>`, `<>` and `like` with null fail compilation |
| Evaluate.SearchReadSelects | src/BaseRepositoryEloquent.php:771-790 | `search` keeps exactly the rows the rest of the compiled query keeps on which some compared column's value matches the `like` pattern |
| Evaluate.SearchHoldsSubsequence | src/BaseRepositoryEloquent.php:783-787 | for input free of wildcards, quotes and backslashes, a row passes the search clause exactly when some compared column holds a non-null value whose SQL text has the input's characters in order |
| Evaluate.SearchNameExample | src/BaseRepositoryEloquent.php:783-787 | searching `rn` over name and xp finds the player `arjon` through the name |
| Evaluate.SearchNumberExample | src/BaseRepositoryEloquent.php:783-787 | a number is searched through its decimal digits: `5` finds xp 35 and `53` does not |
| Search.Chars | src/BaseRepositoryEloquent.php:784 | `str_split` gives the one-character pieces, and `[""]` for an empty input |
| Search.PatternShape | src/BaseRepositoryEloquent.php:784 | the pattern is the input with `%` before, after and between its characters; an empty input gives `%%` |
| Search.CompareColumns | src/BaseRepositoryEloquent.php:775-779 | an empty list or `['*']` means every column of the table |
| Search.SearchSql | src/BaseRepositoryEloquent.php:781-787 | the raw clause is `(`, the column clauses joined by ` OR `, and `)` |
| Search.SearchSqlClauses | src/BaseRepositoryEloquent.php:781-787 | cutting the text inside the parentheses at ` OR ` gives back one clause per compared column, in order, when no clause holds an ` OR ` of its own |
| Search.ClauseQuotesInput | src/BaseRepositoryEloquent.php:784 | an input free of quotes cannot end the string literal early: the only quotes after the column are the two around the pattern |
| Text.JoinSplitRoundTrip | src/BaseRepositoryEloquent.php:787 | `join` can be undone by splitting at the separator when no piece holds the separator or ends with one of its characters |
| Search.PatternMatchesSubsequence | src/BaseRepositoryEloquent.php:784 | for input free of wildcards, quotes and backslashes, a value matches exactly when the input's characters occur in it in order |
| Search.ContainedInputMatches | src/BaseRepositoryEloquent.php:784 | every value that contains the input matches |
| Search.SearchExample | src/BaseRepositoryEloquent.php:784 | `rn` finds `arjon` and `nr` does not |
| Reads.GetRead | src/BaseRepositoryEloquent.php:741-744 | `get` issues the compiled query and fetches the final projection |
| Reads.OnlyEagerLoads | src/BaseRepositoryEloquent.php:160-249 | `all`, `find`, `findWhere`, `findOrNew`, `findOrFail`, `first`, `firstOrCreate` and `firstOrNew` depend on the eager loads alone: filters, sort, limit and projection never reach them |
| Reads.Paginate | src/BaseRepositoryEloquent.php:754-761 | `paginate` sets the page's limit and offset through the zero-skipping setters, keeps the rest of the state, and runs `get` on the result |
| Reads.PaginateKeepsLimit | src/BaseRepositoryEloquent.php:754-761 | paginating never clears a limit or offset already set, nor the filters or sort |
| Reads.SearchRead | src/BaseRepositoryEloquent.php:771-790 | `search` issues the whole compiled query plus one raw clause over the compared columns |
| Text.ReplaceIsJoinOfSplit | src/Validation.php:84-93 | `str_replace` equals `implode` of `explode`: every occurrence, scanned left to right, is replaced |
| Text.ReplaceWithItself | src/Validation.php:84-93 | replacing a needle by itself changes nothing |
| Text.SplitJoinRoundTrip | src/Validation.php:84-93 | joining the pieces with the needle gives back the string |
| Text.SplitPiecesAvoidNeedle | src/Validation.php:84-93 | no piece contains the needle |
| Rules.DefaultRules | src/ValidatingTrait.php:15-18 | the declared rules, or no rules when the class declares none |
| Rules.OperationRulesAgree | src/ValidatingTrait.php:25-38 | create and update rules are the default rules |
| Rules.RulesArray | src/ValidatingTrait.php:47-57 | fails exactly when no rules are declared; all rules without keys; with keys, exactly the declared rules of the listed keys, each taken from the declaration |
| Rules.RuleOf | src/ValidatingTrait.php:57 | a single key gives its rule when declared; an undeclared property or a missing key is an error |
| Rules.RulesIgnoreOperation | src/ValidatingTrait.php:49-51 | the operation never changes the result |
| Interpolation.Placeholders | src/Validation.php:81 | each name found is enclosed in braces somewhere in the rule and holds no `}`; a rule without `{` has none |
| Interpolation.Substitution | src/Validation.php:89-91 | the key attribute, when absent or null, becomes `NULL`; any other absent attribute is an undefined index; otherwise the attribute's string value |
| Interpolation.InterpolateRules | src/Validation.php:78-98 | the rules keep their keys and order; each rule is interpolated on its own |
| Interpolation.SubstituteAllFails | src/Validation.php:83-94 | substitution fails exactly when one of the names cannot be resolved |
| Interpolation.InterpolateFailsIff | src/Validation.php:78-98 | interpolation fails exactly when some rule holds an unresolvable placeholder |
| Interpolation.BraceFreeUnchanged | src/Validation.php:80-95 | a rule without braces is unchanged |
| Interpolation.KeyPlaceholder | src/Validation.php:89-91 | a rule whose one placeholder is the key gets `NULL` when the key is absent or null, its value otherwise |
| Interpolation.OnePlaceholder | src/Validation.php:81 | a rule ending in one placeholder yields exactly that name |
| Interpolation.KeyAtEndBecomesNull | src/Validation.php:89-91 | a trailing key placeholder of a new record becomes `NULL` |
| Interpolation.UniqueRuleExample | src/Validation.php:86-91 | `unique:users,email,{id}` on a new record becomes `unique:users,email,NULL` |
| Validation.CheckedAttributes | src/Validation.php:45 | a persisted model is checked on its dirty attributes, a new one on the attributes passed |
| Validation.SelectedRules | src/Validation.php:47 | a new model gets all rules; a persisted one exactly the rules of the checked attributes |
| Validation.ExtraMessages | src/Validation.php:59-64 | only truthy results of the extra methods become messages |
| Validation.ValidatorMessages | src/Validation.php:55-57 | the validator's messages are taken only when it fails |
| Validation.Messages | src/Validation.php:45-64 | a rule lookup or interpolation error stops validation; otherwise the validator's messages come first, then the extra methods' |
| Validation.Validate | src/Validation.php:43-69 | passes exactly when no message was collected; otherwise one exception carries the non-empty messages |
| Validation.ExtraMessagesAppend | src/Validation.php:60-64 | the extra methods' messages keep the methods' order |
| Validation.ExtraMessagesEmpty | src/Validation.php:60-64 | the extra methods add nothing exactly when each returns a falsy value |
| Validation.ValidatePasses | src/Validation.php:43-69 | validation passes exactly when the rules are declared and resolve, the validator adds no message, and every extra method returns a falsy value |
| Validation.PersistedIgnoresPassedAttributes | src/Validation.php:45 | for a persisted model the attributes passed do not matter |
| Validation.NewModelIgnoresOwnAttributes | src/Validation.php:45 | for a new model its own attributes do not matter |
| Validation.CleanModelHasNoRules | src/Validation.php:45-47 | a persisted model without changes is checked against no rules |
| Store.NewInstance | src/BaseRepositoryEloquent.php:277 | a new instance is unsaved and holds the attributes given |
| Store.Fill | src/BaseRepositoryEloquent.php:318 | `fill` assigns each given attribute and keeps the others; nothing but the attributes changes |
| Store.ChangedEntries | src/Validation.php:45 | the dirty attributes are exactly those absent from the original or not equivalent to it |
| Store.Loaded | src/BaseRepositoryEloquent.php:316 | a loaded model is persisted, clean, carries the row's key under the key name and the row's other columns |
| Store.Lookup | src/BaseRepositoryEloquent.php:316 | the row found is one whose key the id loosely equals; none is found exactly when no row's key matches |
| Store.FindModel | src/BaseRepositoryEloquent.php:316 | `findOrFail` finds a model exactly when some row's key matches the id, and loads that row |
| Store.ListedRows | src/BaseRepositoryEloquent.php:335-336 | `find($ids)` selects exactly the rows some id matches |
| Store.ListedRowsAppend | src/BaseRepositoryEloquent.php:335-336 | the selection keeps table order: selecting from two stretches of rows is selecting from each in turn |
| Store.ListedRowsDistinct | src/BaseRepositoryEloquent.php:335-336 | from rows with distinct keys the selection holds rows with distinct keys |
| Store.Insert | src/BaseRepositoryEloquent.php:283 | an insert uses the integer key the model holds, or else the next auto-increment value; it fails exactly when a row already holds that key; otherwise it appends one row under the key, the model then holds the key, and the auto-increment value moves past it |
| Store.UpdateRow | src/BaseRepositoryEloquent.php:322 | saving a persisted model writes its dirty attributes to the rows its key matches and to no other row |
| Store.Destroy | src/BaseRepositoryEloquent.php:440 | `destroy` keeps exactly the unlisted rows and counts the rest |
| Store.DestroyCountsListed | src/BaseRepositoryEloquent.php:440 | the count is the number of rows the ids select |
| Store.InsertKeepsWellFormed | src/BaseRepositoryEloquent.php:283 | a successful insert keeps keys unique and below the next key, and the new row is found under its key |
| Store.DestroyKeepsWellFormed | src/BaseRepositoryEloquent.php:440 | a destroy keeps keys unique |
| Branch.SetBranchId | src/BaseBranchRepositoryEloquent.php:19-24 | the repository then holds the id given |
| Branch.SetBranchIsAlias | src/BaseBranchRepositoryEloquent.php:32-35 | `setBranch` is `setBranchId` |
| Branch.BranchId | src/BaseBranchRepositoryEloquent.php:42-45 | the held id when truthy, the session's otherwise |
| Branch.BeforeSaveModel | src/BaseBranchRepositoryEloquent.php:53-56 | only a branch repository stamps, and only branch models, with its branch id; other models are unchanged |
| Branch.StampIdempotent | src/BaseBranchRepositoryEloquent.php:53-56 | stamping changes only the branch, and stamping twice is stamping once |
| Branch.ZeroFallsBack | src/BaseBranchRepositoryEloquent.php:42-45 | a repository given the id 0 stamps the session's branch |
| Persistence.Create | src/BaseRepositoryEloquent.php:268-286 | rejects a list; succeeds exactly when the attributes passed validate and the key the row goes under is free; a taken key is a duplicate-key error; on success one row is appended under the key given in the attributes, or else the next auto-increment value, holding the attributes and the hook's stamp; on failure the table is unchanged |
| Persistence.CreateMany | src/BaseRepositoryEloquent.php:294-303 | rows are only appended; on success one model per item |
| Persistence.CreateManyKeys | src/BaseRepositoryEloquent.php:294-303 | a successful `createMany` of items without keys of their own appends one row per item with consecutive keys in item order |
| Persistence.CreateManyFailFast | src/BaseRepositoryEloquent.php:298-300 | a failing `createMany` stops at an item whose `create` fails, after the items before it succeeded, and the table is as they left it |
| Persistence.Update | src/BaseRepositoryEloquent.php:314-325 | the id is any scalar; fails with not-found exactly when no row's key matches it; on failure nothing changes; on success only rows whose key matches change and no key changes; in a table with unique keys the row holds each given attribute (or an equivalent old value), keeps its other columns and its branch stamp |
| Persistence.UpdateIdForms | src/BaseRepositoryEloquent.php:314-316 | a null id finds no row, and an id written as its decimal string updates what the integer updates |
| Persistence.UpdateWritesFilled | src/BaseRepositoryEloquent.php:316-322 | writing back a filled, loaded model touches only rows with its key, keeps every key, and in a table with unique keys keeps every branch stamp and writes exactly the changed attributes |
| Persistence.FirstMatching | src/BaseRepositoryEloquent.php:339-345 | the item found is the first one holding the key attribute with a value matching the row's key; none is found exactly when no item matches |
| Persistence.Pluck | src/BaseRepositoryEloquent.php:335 | each item's key attribute, null when absent |
| Persistence.UpdateMany | src/BaseRepositoryEloquent.php:333-355 | on success one model per row the items name |
| Persistence.UpdateManyWrites | src/BaseRepositoryEloquent.php:333-355 | in a table with unique keys, a successful `updateMany` writes each row some item names from the first item naming it, leaves every other row as it was, and changes no key or branch stamp |
| Persistence.UpdateManyFindsItems | src/BaseRepositoryEloquent.php:335-345 | every row `updateMany` selects has an item naming it |
| Persistence.UpdateRowsIgnoreHook | src/BaseRepositoryEloquent.php:338-352 | `updateMany` gives the same outcome whatever the save hook |
| Persistence.UpdateIgnoresHook | src/BaseRepositoryEloquent.php:314-355 | neither `update` nor `updateMany` depends on the save hook |
| Persistence.Save | src/BaseRepositoryEloquent.php:364-375 | rejects an array or collection; succeeds exactly when the model validates with no attributes passed and, for a new model, the key it goes under is free; the saved model carries the hook's stamp; on failure nothing changes |
| Persistence.SaveNewIgnoresAttributes | src/BaseRepositoryEloquent.php:370 | a new model is validated on an empty attribute map, so whether it is saved does not depend on what it holds beyond the key it goes under |
| Persistence.SaveMany | src/BaseRepositoryEloquent.php:383-393 | on success one persisted model per model passed |
| Persistence.SaveManyInOrder | src/BaseRepositoryEloquent.php:383-393 | a successful `saveMany` saves the models one after the other, each on the table the ones before it left, and returns each as `save` left it |
| Persistence.SaveManyFailFast | src/BaseRepositoryEloquent.php:388-390 | a failing `saveMany` stops at a model whose `save` fails after the ones before it were saved, and the table is as they left it |
| Persistence.SaveManyKeepsWellFormed | src/BaseRepositoryEloquent.php:383-393 | `saveMany` keeps keys unique and below the next key, whether it finishes or stops |
| Persistence.PluckIds | src/BaseRepositoryEloquent.php:430 | the `id` attribute of each model, null when absent |
| Persistence.Destroyed | src/BaseRepositoryEloquent.php:439-441 | a destroy removes the listed rows and returns how many the ids select |
| Persistence.Delete | src/BaseRepositoryEloquent.php:416-442 | a model deletes its own row when persisted; models and collections delete by their `id` values; an int or truthy scalar is one id; an empty plain array or a falsy non-integer deletes nothing |
| Persistence.CollectionDeletesById | src/BaseRepositoryEloquent.php:429-431 | models without an `id` attribute delete nothing, whatever the key name |
| Persistence.CreateKeepsWellFormed | src/BaseRepositoryEloquent.php:283 | `create` keeps keys unique and below the next key |
| Persistence.UpdateKeepsWellFormed | src/BaseRepositoryEloquent.php:322 | `update` keeps keys unique and below the next key |
| Persistence.SaveKeepsWellFormed | src/BaseRepositoryEloquent.php:374 | `save` keeps keys unique and below the next key |
| Persistence.DeleteKeepsWellFormed | src/BaseRepositoryEloquent.php:440 | `delete` keeps keys unique and below the next key |
| Persistence.BranchStampOnCreate | src/BaseBranchRepositoryEloquent.php:42-56 | a branch repository without an id stamps a created branch model with the session's branch |

## Left out

- The SQL the Eloquent builder emits and the database itself. Compiled queries are instruction lists. `Evaluate` gives them a meaning over rows held in memory. The write methods work on one in-memory table.
- Eager loading of related rows and has-relation counts. `Evaluate` treats both as selecting every row.
- `applyQueryParams`. It is glue between the HTTP request and the builder setters.
- `RepositoryWrapper`. It is a service locator over the application container.
- The interfaces. They declare signatures that differ from the implementation; the implementation is modelled.
- Unseen helpers are parameters:
  - `PageLimitOffset` is the `pageLimitOffset` argument of `Reads.Paginate`;
  - `array_is_assoc` is the `isAssoc` argument of `Persistence.Create` and `Persistence.CreateMany`;
  - `get_branch_session` is the `session` of `Branch.Hook`;
  - `Schema::getColumnListing` is the `tableColumns` argument of `Reads.SearchRead`.
- The Laravel validator and the extra validation methods are functions in `Validation.Config`. How the validator reads a rule is not modelled.
- Mass-assignment guards, timestamps, model events, casts and relations of Eloquent models.
- PHP's loose `==` on keys. `KeyEq` matches an integer id, or a string spelling the same decimal number; booleans, null and other spellings never match. The interpolation compares placeholder names with the key name exactly.
- Placeholders are looked up as string keys. Attribute values and rules are scalars and strings; arrays inside them are not modelled.
- `Store.Model.branch` stands for the effect of a branch model's own `setBranchId`, which is not part of the model.
- Persistence.Save: returns the saved model, standing for the object the caller passed, whose state changes in place. The PHP method returns the boolean from `save()`, which is always true here.
- Persistence.Delete: a model's `delete()` on an unsaved model returns nothing, as Eloquent does. Saving events that cancel a save or delete are not modelled.
- Persistence.UpdateMany: its contract gives only the count of models; what it writes is stated by `Persistence.UpdateManyWrites`, for tables with unique keys.
- Persistence.Update: the key column is not written back from the attributes, and a table with duplicate keys is only covered by the parts that do not need unique keys.
- Store.UpdateRow: rows are found by `KeyEq` on the original key, so a model whose key attribute was changed still writes to its original row; the key column itself never changes.
- Evaluate.Select: comparison is defined on two integers or two strings, strings ordered by character code; collation, floating point, type juggling between integers and strings, upper-case operator names and Laravel's fallback of unknown operators to `=` are not modelled. The operator list and the handling of a null value follow the Laravel 4.2 query builder: `=` with null is `whereNull`, any other listed operator with null is refused. Take and skip keep every row: paging is not modelled.
- Evaluate.PreparedSelection: states which rows the compiled query's conditions keep; the window that take and skip cut from the sorted rows is not modelled.
- Search.PatternMatchesSubsequence: holds only for input without `%`, `_`, `'` or `\`. The input is inserted into the SQL unescaped, so such characters change the clause, and MySQL reads `\` as its escape character. Matching is case-sensitive and exact, whereas a case-insensitive collation such as `utf8_unicode_ci` lets `KAT` find `katbritanico`.
- Search.Chars: splits the input into characters, whereas `str_split` splits bytes, so a character of several bytes in UTF-8 gives a different pattern.
- Interpolation.Placeholders: the helpers `chars_within` and `last` are not part of this model; a concrete scan stands for them, in which each `{` closes at the next `}`. `Interpolation.OnePlaceholder` and `Interpolation.UniqueRuleExample` depend on that scan.
- Store.Insert: a key attribute that is not an integer is treated as absent, MySQL's reading of key 0 as "generate one" is not modelled, and rows stay in insertion order rather than key order.
- Persistence.CreateManyKeys: covers only items without a key of their own; items with one are inserted under it, as `Store.Insert` states.
