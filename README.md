# flipper feature flags, modelled in Dafny

flipper is a feature-flag client. A *flag* is a named item in a store. The item holds:

- an on/off switch (`is_enabled`);
- a *meta* record: a creation time, free-form client data, a list of *conditions* and a *bucketer*.

A flag answers `is_enabled(**attributes)` as follows:

1. A flag that is switched off is off.
2. When attributes are supplied and the flag has conditions, the answer is whether every condition is satisfied.
3. Otherwise a bucketer other than the no-op one decides, by a random draw or by a hash of the attributes.
4. Otherwise the flag is on.

Each condition groups *checks* by variable name. A check is built from a keyword such as `age__gte=18`. A key that splits on `__` into exactly two parts is a variable and one of eight comparison operator symbols; any other key, a bare name included, is a variable compared for equality. The bucketers decide by a *percentage*, which is either a fixed value or a linear ramp over time.

Everything persists through dictionary forms (`to_dict`/`from_dict`). The client reads the meta back through that form before every change.

The model covers four layers:

| Layer | Modules |
|---|---|
| Operators, checks and conditions | `Operators`, `Checks`, `Conditions` |
| Percentages and bucketers | `Percentages`, `Bucketers` |
| Stored item, its meta and the in-memory store | `Item`, `Meta`, `Memory` |
| Client | `Client` |

It also models the listing windows of the Redis and S3 stores (`Listing`) and the `batchify` helper (`Iter`).

Supporting modules:

- `Values`: Python values and their comparisons, and JSON values.
- `Dicts`: insertion-ordered dictionaries.
- `Strings`: the `__` split.
- `Wrappers`: Option and Result.

The model follows these conventions:

- A Python exception is an `Err`/`Fail` value of one `Error` type.
- Python dictionaries keep their insertion order. `Dicts.Put` overwrites in place and appends a new key.
- The clock (`now`), the random draw and the hash of the attributes are parameters.
- The store and the client are classes whose methods change the stored table in place. Each method is proved to produce exactly what a function on the table gives, and the lemmas are stated about those functions.

Two behaviours of the code are easy to misread:

- `Check.check` passes the supplied value first and the configured value second. For example, `age__gte=18` means `supplied >= 18`, and `role__in=[...]` asks whether the supplied role is in the configured list.
- In `is_enabled`, when attributes are supplied and the flag has conditions, the conditions decide alone and the bucketer is not consulted.

The linear ramp of `LinearRampPercentage.value` has two defects, listed under "## Findings". `Percentages.RampValueAsWritten` models the code as written. Flag evaluation reads a ramp through `Percentages.ValueAt`, which uses the corrected ramp `Percentages.RampValue`; "## Left out" lists the members this affects.

## Model

| member | source | states |
|---|---|---|
| Operators.Lookup | flipper/conditions/operators/operator.py:27-36 | the operator found carries the symbol looked up; no operator is found only when none in the table has that symbol |
| Operators.Factory | flipper/conditions/operators/operator.py:41-46 | a found operator has the requested symbol; an unknown symbol is InvalidSymbol and no operator has it |
| Operators.AllOperatorsListed | flipper/conditions/operators/operator.py:27-36 | the operator table lists all eight operators |
| Operators.FactoryOfSymbol | flipper/conditions/operators/operator.py:41-46 | the factory returns each operator for its own symbol |
| Operators.SymbolsDistinct | flipper/conditions/operators/operator.py:27-36 | the eight symbols are pairwise distinct, so the table has no collisions |
| Operators.EqualitySymmetric | flipper/conditions/operators/equality_operator.py:9-10 | equality never fails and is symmetric |
| Operators.NegationComplementsEquality | flipper/conditions/operators/negation_operator.py:9-10 | `ne` is the negation of equality |
| Operators.GreaterThanAsymmetric | flipper/conditions/operators/greater_than_operator.py:9-10 | if x > y holds then y > x does not |
| Operators.LessThanIsConverseOfGreaterThan | flipper/conditions/operators/less_than_operator.py:9-10 | x < y answers as y > x, errors included |
| Operators.LessOrEqualIsConverseOfGreaterOrEqual | flipper/conditions/operators/less_than_or_equal_to_operator.py:9-10 | x <= y answers as y >= x |
| Operators.GreaterOrEqualIsGreaterOrEqual | flipper/conditions/operators/greater_than_or_equal_to_operator.py:9-10 | for comparable values, x >= y holds iff x > y or x == y |
| Operators.LessOrEqualIsNotGreater | flipper/conditions/operators/less_than_or_equal_to_operator.py:9-10 | for comparable values, `lte` is the complement of `gt` |
| Operators.IntegerComparisons | flipper/conditions/operators/greater_than_operator.py:9-10 | on integers the five comparison operators mean the integer relations |
| Operators.SetMembershipInList | flipper/conditions/operators/set_membership_operator.py:9-10 | `in` holds exactly when some list element equals the value; nothing is in the empty list |
| Operators.NegatedSetMembershipComplements | flipper/conditions/operators/negated_set_membership_operator.py:9-10 | `not_in` is the negation of `in`, errors included |
| Operators.OperatorExamples | flipper/conditions/operators/set_membership_operator.py:9-10 | concrete answers of every operator on small integers and lists |
| Checks.ParseKey | flipper/conditions/check.py:48-57 | a key can fail to parse only with InvalidSymbol |
| Checks.FromKey | flipper/conditions/check.py:43-46 | a built check carries the variable and operator the key parses to and the given value; a failure is the parse failure |
| Checks.MakeKey | flipper/conditions/check.py:72-76 | without a symbol the key is the variable; with one it is variable, `__`, symbol |
| Checks.ParseKeyThenMakeKey | flipper/conditions/check.py:48-57 | every key that parses is rebuilt exactly from its parts |
| Checks.MakeKeyThenParseKey | flipper/conditions/check.py:72-76 | a key made from a variable without `__` parses back to that variable and operator |
| Checks.FromKeyKeyOf | flipper/conditions/check.py:43-46 | a check built from a key reproduces that key |
| Checks.ParseKeyInjective | flipper/conditions/check.py:48-57 | two keys parsing to the same parts are the same key |
| Checks.ParseBareKey | flipper/conditions/check.py:48-57 | a key without `__` is an equality check on the whole key |
| Checks.ParseGreaterThanKey | flipper/conditions/check.py:48-57 | `foo__gt` is greater-than on `foo` |
| Checks.ParseLessOrEqualKey | flipper/conditions/check.py:48-57 | `foo__lte` is less-or-equal on `foo` |
| Checks.ParseNotInKey | flipper/conditions/check.py:48-57 | `foo__not_in` is negated membership on `foo` |
| Checks.ParseEqSuffix | flipper/conditions/check.py:48-57 | `foo__eq` is rejected: `eq` is not a symbol |
| Checks.ParseEmptySuffix | flipper/conditions/check.py:48-57 | `foo__` is rejected: the empty suffix is not a symbol |
| Checks.ParseThreePartKey | flipper/conditions/check.py:48-57 | a key with two `__` is an equality check on the whole key |
| Checks.Evaluate | flipper/conditions/check.py:40-41 | equality and `ne` never raise; on integers `gt` and `lt` compare the supplied value with the configured one; `in` asks whether the supplied value is an element of the configured list |
| Checks.EvaluateExamples | flipper/conditions/check.py:40-41 | the supplied value is compared against the configured one |
| Checks.ToDict | flipper/conditions/check.py:59-64 | the dictionary form has exactly the keys variable, value, operator |
| Checks.ToDictFields | flipper/conditions/check.py:59-64 | the three entries hold the variable, the value and the operator's symbol |
| Checks.FromDict | flipper/conditions/check.py:66-70 | a non-dictionary is TypeError and a missing variable KeyError; a check read back carries the stored variable and the operator named by the stored symbol |
| Checks.DictRoundTrip | flipper/conditions/check.py:66-70 | reading back the dictionary form gives the same check |
| Conditions.ParseAll | flipper/conditions/condition.py:29-34 | a successful parse yields one check per keyword |
| Conditions.New | flipper/conditions/condition.py:22-34 | the constructor's loop builds exactly the grouping of the parsed checks, or fails as parsing does |
| Conditions.GroupLookup | flipper/conditions/condition.py:29-34 | the checks grouped under a variable are exactly the parsed checks on it, in order |
| Conditions.AllPassIff | flipper/conditions/condition.py:36-43 | a group passes iff every check in it passes; a failing group has a failing check; an error comes from some check |
| Conditions.SatisfiesIff | flipper/conditions/condition.py:36-43 | a condition holds iff every check on every supplied attribute passes; a false answer names a failing check |
| Conditions.Satisfies | flipper/conditions/condition.py:36-43 | no attributes is true; a supplied name without checks is skipped; a true answer means every check on the first supplied name passed |
| Conditions.NoAttributesSatisfy | flipper/conditions/condition.py:36-43 | with no attributes every condition holds |
| Conditions.OnlySuppliedNamesMatter | flipper/conditions/condition.py:36-43 | conditions that agree on the supplied names give the same answer |
| Conditions.Touch | flipper/conditions/condition.py:38 | reading a missing name from the defaultdict adds an empty group and changes no lookup |
| Conditions.CheckAll | flipper/conditions/condition.py:36-43 | the loop answers what the condition's meaning says and leaves the condition with the touched groups |
| Conditions.TouchedKeepsChecks | flipper/conditions/condition.py:36-43 | evaluation changes no group's checks and keeps every group |
| Conditions.CheckRecordsUntrackedName | flipper/conditions/condition.py:36-49 | after a check on an untracked name, the dictionary form shows an empty list under that name |
| Conditions.DictRoundTrip | flipper/conditions/condition.py:45-60 | a canonical condition survives its dictionary form |
| Conditions.BuildCanonical | flipper/conditions/condition.py:22-60 | every condition built from keywords is canonical, so it survives its dictionary form |
| Conditions.TwoChecksOnOneVariable | flipper/conditions/condition.py:29-34 | `baz__gt` and `baz__lt` group into one list under `baz` |
| Conditions.LaterDuplicateWins | flipper/conditions/condition.py:51-60 | two stored checks with the same key read back as one, the later one |
| Conditions.SameKeyCollapses | flipper/conditions/condition.py:51-64 | a concrete instance of the collapse on reading back |
| Conditions.FromDict | flipper/conditions/condition.py:51-60 | only a dictionary can be read (anything else fails on `.items()`); the round trip is Conditions.DictRoundTrip |
| Percentages.Dt | flipper/bucketing/percentage/linear_ramp_percentage.py:50-52 | elapsed time is reduced to seconds within a day, congruent to the true difference and equal to it within a day |
| Percentages.RampValueAsWritten | flipper/bucketing/percentage/linear_ramp_percentage.py:40-52 | the value as written at a time: never above the final value, the final value for a zero duration, and within a day of the start the formula on the true elapsed time |
| Percentages.RampAsWritten | flipper/bucketing/percentage/linear_ramp_percentage.py:40-48 | the ramp as written never exceeds the final value and is the final value for a zero duration |
| Percentages.DecreasingRampFlatAsWritten | flipper/bucketing/percentage/linear_ramp_percentage.py:44 | as written, a decreasing ramp sits at its final value throughout the ramp |
| Percentages.DecreasingRampOvershootsAsWritten | flipper/bucketing/percentage/linear_ramp_percentage.py:44 | as written, a decreasing ramp drops below its final value after the ramp ends |
| Percentages.RampRepeatsDaily | flipper/bucketing/percentage/linear_ramp_percentage.py:50-52 | as written, the ramp value repeats every day |
| Percentages.RampWrapExamples | flipper/bucketing/percentage/linear_ramp_percentage.py:50-52 | a start 10 s in the future reads as 86390 s elapsed; a day later the ramp is back at its start |
| Percentages.ValueAt | flipper/bucketing/percentage/linear_ramp_percentage.py:40-48 | a static percentage reads its stored value; a ramp reads a number between its ends, the initial value before the start and the final value once the duration is over (the corrected ramp) |
| Percentages.RampValue | flipper/bucketing/percentage/linear_ramp_percentage.py:40-48 | the ramp stays between its two ends, reaches the final value at the end and starts at the initial value |
| Percentages.RampMonotone | flipper/bucketing/percentage/linear_ramp_percentage.py:40-48 | a rising ramp never falls and a falling ramp never rises |
| Percentages.AsWrittenAgreesWithinADay | flipper/bucketing/percentage/linear_ramp_percentage.py:40-52 | for rising ramps within a day of the start, the code as written and the corrected ramp agree |
| Percentages.RampExamples | flipper/bucketing/percentage/linear_ramp_percentage.py:40-48 | halfway through 0.2 to 0.6 the value is 0.4; a flat ramp is constant |
| Percentages.ComparisonGuard | flipper/bucketing/percentage/base.py:43-45 | comparing a percentage with a non-number raises ValueError for every relation and for equality |
| Percentages.ComparisonsConsistent | flipper/bucketing/percentage/base.py:39-61 | for numbers, `>` is the negation of `<=`, `<` of `>=`, and `>=` is `>` or `==` |
| Percentages.ReflectedComparisonExamples | flipper/bucketing/percentage/base.py:47-49 | concrete `>=` answers around 0.5 |
| Percentages.ToDict | flipper/bucketing/percentage/base.py:30-32 | the dictionary form starts with the type name |
| Percentages.Create | flipper/bucketing/percentage/factory.py:30-37 | a missing type is KeyError and an unknown type name InvalidPercentageType; a created percentage has the type it was asked for, and a static one the stored value or None |
| Percentages.CreateRoundTrip | flipper/bucketing/percentage/factory.py:30-37 | every percentage is recreated from its dictionary form |
| Percentages.CreateErrors | flipper/bucketing/percentage/factory.py:30-37 | a missing type is KeyError, an unknown type InvalidPercentageType |
| Percentages.CreateDefaults | flipper/bucketing/percentage/linear_ramp_percentage.py:21-34 | a bare type gives the defaults: a fixed percentage with no value (not the full 1.0), and a ramp from 0 to 1 over an hour starting now |
| Bucketers.Filter | flipper/bucketing/consistent_hash_percentage_bucketer.py:47-53 | the filtered attributes are a subsequence of the attributes, in their order; every entry kept is whitelisted and every whitelisted entry is kept |
| Bucketers.Score | flipper/bucketing/consistent_hash_percentage_bucketer.py:58-59 | a hash score lies in [0, 0.99] |
| Bucketers.Check | flipper/bucketing/consistent_hash_percentage_bucketer.py:31-40 | the no-op bucketer admits; a zero percentage refuses in both other bucketers; otherwise the percentage bucketer answers `draw <= value`, a caller attribute named `randomizer` is TypeError, and the consistent-hash bucketer admits exactly the callers whose score is at most the value |
| Bucketers.AdmitStatic | flipper/bucketing/percentage_bucketer.py:33-36 | a fixed percentage admits a draw iff it is non-zero and the draw is at most its value |
| Bucketers.NoOpAdmitsAll | flipper/bucketing/noop_bucketer.py:11-12 | the no-op bucketer admits everyone |
| Bucketers.ZeroAdmitsNobody | flipper/bucketing/consistent_hash_percentage_bucketer.py:31-40 | a zero percentage admits nobody, for both bucketers |
| Bucketers.PercentageBucketerAdmitsDrawsBelow | flipper/bucketing/percentage_bucketer.py:33-36 | a non-zero percentage admits exactly the draws at or below it |
| Bucketers.ConsistentHashAdmitsScoresBelow | flipper/bucketing/consistent_hash_percentage_bucketer.py:31-40 | a non-zero percentage admits exactly the callers whose hash score is at or below it |
| Bucketers.PercentageBucketerExamples | flipper/bucketing/percentage_bucketer.py:33-36 | at 50%, draws 0.4 and 0.5 pass and 0.6 does not; at 0% nothing passes |
| Bucketers.HighPercentageAdmitsAll | flipper/bucketing/consistent_hash_percentage_bucketer.py:31-40 | a percentage of 0.99 or more admits every hash score |
| Bucketers.ConsistentHashMonotone | flipper/bucketing/consistent_hash_percentage_bucketer.py:31-40 | raising the percentage never removes someone already admitted |
| Bucketers.EmptyWhitelistKeepsAll | flipper/bucketing/consistent_hash_percentage_bucketer.py:50-53 | an empty whitelist keeps every attribute |
| Bucketers.FilterIgnoresOthers | flipper/bucketing/consistent_hash_percentage_bucketer.py:47-53 | setting an attribute outside the whitelist does not change the filtered attributes |
| Bucketers.ConsistentHashIgnoresOthers | flipper/bucketing/consistent_hash_percentage_bucketer.py:31-53 | an attribute outside the whitelist does not change the answer |
| Bucketers.ConsistentHashOrderIndependent | flipper/bucketing/consistent_hash_percentage_bucketer.py:42-56 | the answer does not depend on the order the attributes were passed in |
| Bucketers.PayloadOrderIndependent | flipper/bucketing/consistent_hash_percentage_bucketer.py:42-56 | the hashed payload is sorted, so it does not depend on attribute order |
| Bucketers.ToDict | flipper/bucketing/base.py:28-30 | the dictionary form starts with the type name |
| Bucketers.Dedup | flipper/bucketing/consistent_hash_percentage_bucketer.py:23-25 | the whitelist set has the same members and no repeats |
| Bucketers.DedupDistinct | flipper/bucketing/consistent_hash_percentage_bucketer.py:23-25 | a whitelist without repeats is kept as it is |
| Bucketers.NamesRoundTrip | flipper/bucketing/consistent_hash_percentage_bucketer.py:61-75 | a whitelist survives its list form |
| Bucketers.WhitelistRepeatsDropped | flipper/bucketing/consistent_hash_percentage_bucketer.py:68-75 | repeated whitelist entries are read back once |
| Bucketers.WhitelistOtherForms | flipper/bucketing/consistent_hash_percentage_bucketer.py:68-75 | a string whitelist becomes its characters, a null one is TypeError, a missing one is empty |
| Bucketers.KeyErrorAsInvalidType | flipper/bucketing/factory.py:32-39 | a KeyError from the lookup is reported as InvalidBucketerType; success is preserved |
| Bucketers.Create | flipper/bucketing/factory.py:32-39 | KeyError exactly when the type is missing; an unknown type name is InvalidBucketerType; a created bucketer has the type it was asked for |
| Bucketers.CreateRoundTrip | flipper/bucketing/factory.py:32-39 | every bucketer with a repeat-free whitelist is recreated from its dictionary form |
| Bucketers.CreateErrors | flipper/bucketing/factory.py:32-39 | a missing type is KeyError; an unknown type is InvalidBucketerType |
| Bucketers.CreateExamples | flipper/bucketing/percentage_bucketer.py:41-47 | concrete readings: an explicit percentage, the 100% default, the no-op bucketer ignoring extra keys |
| Bucketers.PercentagePassesThrough | flipper/bucketing/percentage_bucketer.py:41-47 | a stored percentage dictionary is read through the percentage factory |
| Meta.New | flipper/contrib/storage/meta.py:22-32 | falsy client data becomes an empty object, a missing bucketer the no-op one; the rest is kept |
| Meta.Defaults | flipper/contrib/storage/meta.py:22-32 | a meta built from a time alone has empty client data, no conditions and the no-op bucketer |
| Meta.ToDict | flipper/contrib/storage/meta.py:34-40 | the four keys in order, holding client data, time, the conditions' forms and the bucketer's form |
| Meta.FromDict | flipper/contrib/storage/meta.py:42-56 | a non-dictionary fails; a meta read back carries the stored creation time and normalised client data |
| Meta.DictRoundTrip | flipper/contrib/storage/meta.py:34-56 | a storable meta survives its dictionary form |
| Meta.FromDictDefaults | flipper/contrib/storage/meta.py:42-56 | missing fields take their defaults; a missing creation time is KeyError |
| Meta.MutableMeta.constructor | flipper/contrib/storage/meta.py:22-32 | the mutable record starts with the given meta's fields |
| Meta.MutableMeta.MergeClientData | flipper/contrib/storage/meta.py:74-75 | dictionary client data is merged with the new entries winning; anything else fails with AttributeError and is kept; no other field changes |
| Meta.MutableMeta.Update | flipper/contrib/storage/meta.py:58-72 | the record after the update is the functional update of the record before |
| Meta.MergeSemantics | flipper/contrib/storage/meta.py:74-75 | after a merge a key reads the new value if given, the old one otherwise |
| Meta.UpdateNothing | flipper/contrib/storage/meta.py:58-72 | an update with no arguments changes nothing |
| Meta.UpdateCreatedDateOnly | flipper/contrib/storage/meta.py:65-66 | updating the time changes only the time |
| Meta.UpdateReplaces | flipper/contrib/storage/meta.py:69-72 | conditions and bucketer are replaced, not merged, and nothing else changes |
| Meta.MergeIntoNonDictionary | flipper/contrib/storage/meta.py:65-68 | a merge into non-dictionary client data fails after the time was already set |
| Meta.MergeExamples | flipper/contrib/storage/meta.py:74-75 | a new key is added; an existing key is overwritten |
| Item.CheckConditions | flipper/contrib/storage/item.py:65-66 | the loop answers whether all conditions hold, stopping at the first that does not, and returns the touched conditions |
| Item.IsEnabled | flipper/contrib/storage/item.py:53-63 | a true answer or an error comes only from a switched-on item; a switched-on item with nothing to decide is on |
| Item.Evaluate | flipper/contrib/storage/item.py:53-63 | the evaluation answers by the decision rule and leaves the item with the touched conditions |
| Item.AllSatisfiedIff | flipper/contrib/storage/item.py:65-66 | the conditions are satisfied iff each one is |
| Item.DisabledIsOff | flipper/contrib/storage/item.py:53-55 | a switched-off item is off and is not touched |
| Item.ConditionsDecide | flipper/contrib/storage/item.py:57-58 | with attributes and conditions, the answer is the conditions' answer, whatever the bucketer and draw |
| Item.BucketerDecides | flipper/contrib/storage/item.py:60-61 | with a bucketer and no deciding conditions, the bucketer's answer is the item's |
| Item.ConditionsIgnoredWithoutAttributes | flipper/contrib/storage/item.py:57-63 | without attributes and without a bucketer an enabled item is on, whatever its conditions |
| Item.AfterAllKeepsAnswers | flipper/contrib/storage/item.py:65-66 | touching conditions during one evaluation changes no later answer |
| Item.IsEnabledAgain | flipper/contrib/storage/item.py:53-66 | an item after an evaluation answers every later query as before |
| Item.ToDict | flipper/contrib/storage/item.py:29-34 | the dictionary form has the keys feature_name, is_enabled, meta |
| Item.Deserialize | flipper/contrib/storage/item.py:39-47 | a non-dictionary is TypeError and a missing meta fails; an item read back carries the stored name and switch |
| Item.DeserializeRoundTrip | flipper/contrib/storage/item.py:36-47 | an item with a storable meta survives its dictionary form |
| Memory.SliceIndex | flipper/contrib/memory.py:62-65 | a slice bound is clamped to the length, and a negative one counts from the end |
| Memory.MemoryStore.constructor | flipper/contrib/memory.py:22-23 | a new store is empty |
| Memory.MemoryStore.Create | flipper/contrib/memory.py:25-34 | the store then holds a fresh item under the name, and that item is returned |
| Memory.MemoryStore.Save | flipper/contrib/memory.py:36-38 | the store then holds the item under its own name |
| Memory.MemoryStore.Get | flipper/contrib/memory.py:40-41 | nothing is returned iff the name is absent; an item returned carries that name |
| Memory.MemoryStore.Set | flipper/contrib/memory.py:43-53 | the new table is the one the set rule gives |
| Memory.MemoryStore.Delete | flipper/contrib/memory.py:55-57 | the name is removed and nothing else changes |
| Memory.MemoryStore.List | flipper/contrib/memory.py:59-68 | the loop yields, in order, the items of the listed names |
| Memory.MemoryStore.SetMeta | flipper/contrib/memory.py:70-80 | a missing flag fails with FlagDoesNotExist; otherwise only its meta is replaced |
| Memory.PutWellFormed | flipper/contrib/memory.py:36-38 | saving an item under its own name keeps every entry under its own name, without duplicate names |
| Memory.CreateThenGet | flipper/contrib/memory.py:25-34 | after create, get returns the new item with the client data (empty if falsy) and the given time, and no other name changes |
| Memory.SetAbsent | flipper/contrib/memory.py:46-48 | set on an absent name creates it with the given switch |
| Memory.SetKeepsMeta | flipper/contrib/memory.py:50-53 | set on a present flag with a storable meta changes only the switch |
| Memory.SetOthersUnchanged | flipper/contrib/memory.py:43-53 | set either fails and changes nothing, or leaves the name holding the new switch; no other name changes |
| Memory.DeleteThenGet | flipper/contrib/memory.py:55-57 | after delete the name is absent, others are kept, and deleting an absent name changes nothing |
| Memory.SetMetaThenGet | flipper/contrib/memory.py:70-80 | after set_meta the flag holds the new meta and its old switch |
| Memory.OperationsKeepWellFormed | flipper/contrib/memory.py:25-80 | every store operation keeps the table well formed |
| Memory.ListedAscending | flipper/contrib/memory.py:62 | listed names come out in strictly ascending order |
| Memory.ListedAll | flipper/contrib/memory.py:59-68 | with no limit and no offset every stored name is listed |
| Memory.ListedIsSlice | flipper/contrib/memory.py:62-65 | with non-negative bounds the listing is the sorted names from the offset, at most `limit` of them |
| Memory.NegativeBoundsCountFromEnd | flipper/contrib/memory.py:62-65 | negative offsets and limits count from the end, as Python slices do |
| Memory.ListedItemsNamed | flipper/contrib/memory.py:67-68 | every listed item is present and carries the listed name |
| Client.FeatureFlagClient.constructor | flipper/client.py:35-37 | the client works on the given store |
| Client.FeatureFlagClient.Create | flipper/client.py:47-69 | the store then holds a fresh flag, and the flag's name is returned |
| Client.FeatureFlagClient.Exists | flipper/client.py:77-78 | a flag exists iff the store holds the name |
| Client.FeatureFlagClient.IsEnabled | flipper/client.py:71-75 | the answer and the new table are those the client's rule gives: the default for a missing flag, else the item's answer |
| Client.FeatureFlagClient.List | flipper/client.py:83-87 | the names listed are those the store lists |
| Client.FeatureFlagClient.Enable | flipper/client.py:89-93 | the table then is the one switching on gives; a missing flag fails with FlagDoesNotExist |
| Client.FeatureFlagClient.Disable | flipper/client.py:95-99 | the table then is the one switching off gives; a missing flag fails with FlagDoesNotExist |
| Client.FeatureFlagClient.Switch | flipper/client.py:25-31 | the existence guard runs first, then the store's set |
| Client.FeatureFlagClient.Destroy | flipper/client.py:101-105 | a present flag is removed; a missing one fails with FlagDoesNotExist |
| Client.FeatureFlagClient.GetMeta | flipper/client.py:134-136 | a missing flag is FlagDoesNotExist; otherwise the meta's dictionary form with its four keys |
| Client.FeatureFlagClient.GetClientData | flipper/client.py:131-132 | the stored client data, or FlagDoesNotExist |
| Client.FeatureFlagClient.AddCondition | flipper/client.py:107-115 | the table then is the one appending the condition to the re-read meta gives |
| Client.FeatureFlagClient.SetClientData | flipper/client.py:117-129 | the table then is the one merging the client data into the re-read meta gives |
| Client.FeatureFlagClient.SetBucketer | flipper/client.py:138-146 | the table then is the one replacing the bucketer of the re-read meta gives |
| Client.FeatureFlagClient.SetConditions | flipper/client.py:148-162 | the table then is the one replacing the conditions of the re-read meta gives |
| Client.ClientDataOfStored | flipper/client.py:131-136 | client data fails exactly for missing flags and is otherwise the stored one |
| Client.RereadStored | flipper/client.py:109 | reading a storable meta back through its dictionary form gives the stored meta |
| Client.MissingFlag | flipper/client.py:25-31 | on a missing flag is_enabled answers the default and every guarded operation fails with FlagDoesNotExist, changing nothing |
| Client.Checked | flipper/client.py:71-75 | a missing flag answers the default and changes nothing; a present flag answers its item's answer; no other flag changes |
| Client.CheckedDelegates | flipper/client.py:71-75 | a present flag answers its item's answer; the evaluation changes no later answer and no other flag |
| Client.CreatedDisabledIsOff | flipper/client.py:47-75 | a flag created disabled exists and is off for everyone |
| Client.FreshStorable | flipper/contrib/memory.py:31-33 | a created flag's meta survives its dictionary form |
| Client.SwitchTwice | flipper/client.py:89-99 | enable and disable change only the switch, and the last call wins |
| Client.DestroyThenGone | flipper/client.py:101-105 | after destroy the flag is gone, answers the default, and others are kept |
| Client.AddConditionAppends | flipper/client.py:107-115 | add_condition appends exactly that condition and changes nothing else |
| Client.AddConditionAgain | flipper/client.py:107-115 | after add_condition the flag is again well formed and storable, so conditions accumulate |
| Client.SetConditionsReplaces | flipper/client.py:148-162 | set_conditions replaces the whole list and nothing else |
| Client.SetBucketerOnly | flipper/client.py:138-146 | set_bucketer replaces the bucketer alone |
| Client.SetClientDataMerges | flipper/client.py:117-129 | set_client_data merges with the new keys winning; non-dictionary client data fails with AttributeError, changing nothing |
| Client.OthersUnchanged | flipper/client.py:89-162 | no client operation changes another flag |
| Iter.Batchify | flipper/contrib/util/iter.py:18-24 | a negative size is ValueError; otherwise the list is cut into consecutive chunks |
| Iter.ConcatChunks | flipper/contrib/util/iter.py:18-24 | the chunks concatenate back to the input |
| Iter.ChunkSizes | flipper/contrib/util/iter.py:18-24 | no chunk is empty or larger than the size, and all but the last are full |
| Iter.ChunkCount | flipper/contrib/util/iter.py:18-24 | there are ceil(n / size) chunks |
| Iter.OneChunk | flipper/contrib/util/iter.py:18-24 | a list no longer than the size is one chunk |
| Iter.NoChunks | flipper/contrib/util/iter.py:18-24 | an empty list, or size 0, gives no chunks |
| Listing.EnumerateFeatureKeys | flipper/contrib/redis.py:85-98 | the scanning loop yields exactly the window of keys after the offset, at most `limit` of them |
| Listing.ListObjects | flipper/contrib/s3.py:69-97 | the paging loop fetches exactly the items of that window, in order |
| Listing.WindowIsSlice | flipper/contrib/s3.py:91-97 | for non-negative bounds the window is the slice from the offset, at most `limit` long |
| Listing.WindowBounds | flipper/contrib/redis.py:85-98 | the window is a contiguous slice, no longer than the limit, empty for limit 0 or an offset past the end |
| Listing.BatchedWindow | flipper/contrib/redis.py:74-83 | fetching the window in batches loses and repeats nothing |
| Listing.KeyName | flipper/contrib/redis.py:58-59 | a stored key is the base key, `/`, then the flag name |
| Listing.ScanFindsEveryKey | flipper/contrib/redis.py:105-106 | the scan pattern, read as the base key followed by any suffix, matches every stored key |
| Listing.KeyNameInjective | flipper/contrib/redis.py:58-59 | different flags have different stored keys |

## Left out

- Events: the pre/post event emitter calls in the client are not modelled. They do not change the store.
- I/O and randomness:
  - The clock, the random draw of the percentage bucketer and the SHA-1 hash of the consistent-hash bucketer are parameters.
  - The hash is any function from the serialised payload to a natural number.
  - `json.dumps` of the payload is modelled as the sorted attribute list.
- Floating point: percentages, draws and ramp values are reals. Rounding is not modelled.
- Python dynamic typing:
  - `Values` covers None, booleans, integers, strings and lists, with Python's comparison rules and TypeError where Python 3 raises it.
  - Floats as attribute values, dictionaries as attribute values, and user-defined objects are not covered.
  - A stored `created_date` that is not an integer, and an `is_enabled` or `feature_name` of the wrong type, are read as errors rather than kept.
- Checks.FromDict: a stored `variable` that is not a string is read as an error, where `Check.from_dict` keeps whatever value is stored.
- Percentages.ValueAt: a linear ramp is read as the corrected ramp `Percentages.RampValue`, not as the code's `min`-clamped value on the day-wrapped `dt` (`Percentages.RampValueAsWritten`). The two agree for rising ramps within a day of the start (`Percentages.AsWrittenAgreesWithinADay`).
- Bucketers.Check: reads its percentage through `Percentages.ValueAt`, so a ramp admits by the corrected value.
- Item.IsEnabled: a flag with a ramp bucketer answers by the corrected ramp value.
- Item.Evaluate: a flag with a ramp bucketer answers by the corrected ramp value.
- Client.Checked: a flag with a ramp bucketer answers by the corrected ramp value.
- Client.FeatureFlagClient.IsEnabled: a flag with a ramp bucketer answers by the corrected ramp value.
- Listing.ScanFindsEveryKey: Redis `SCAN MATCH` reads the pattern as a glob. The model reads it as the literal base key followed by any suffix, so it does not cover base keys that contain `*`, `?`, `[` or `\`.
- Set iteration order: `Bucketers.Dedup` keeps first occurrences in order, where Python's `set` has an arbitrary order. Only the payload, which is sorted, depends on it.
- Whitelists of non-strings are not covered.
- Ramp durations are integers.
- Byte level: `serialize`/`deserialize` are modelled on the dictionary form; JSON text and UTF-8 encoding are not modelled.
- Aliasing: the client data dictionary shared between a caller and the stored meta is a value here, so a caller mutating it afterwards is not modelled.
- Keyword collisions: passing `feature_name`, `default` or `randomizer` as condition attributes collides with Python parameters. This is not modelled; `randomizer` is removed from the hashed payload as the code does.
- `Client.FeatureFlagClient.List`: the client yields `FeatureFlag` handles; the model yields their names. `get` (a handle around the name) and flipper/flag.py are not part of this model.
- `Client.AddConditionAgain`: adding the same condition twice is stated as one step that re-establishes its own precondition, not as a single lemma about two calls.
- `Memory.MemoryStore.Set`: the store's `set` re-reads the meta through its dictionary form. The model returns `Fail` where that read would raise, which only happens for a meta that does not survive the form.
- Stores: the cached, consul, replicated, synced, thrift, grpc and postgresql stores, the network parts of the Redis and S3 stores, and flipper/decorators.py are not part of this model. Only the Redis and S3 listing windows and key names are modelled.
- flipper/contrib/util/date.py is not part of this model. The current time is an integer parameter.

## Findings

| source | as written | input that shows it | evidently intended | confidence | as-written member | corrected member |
|---|---|---|---|---|---|---|
| flipper/bucketing/percentage/linear_ramp_percentage.py:44 | the ramp value is clamped with `min(..., final_value)`, which only bounds rising ramps | a ramp from 1.0 to 0.0 over 10 s reads 0.0 throughout the ramp and -1.0 after 20 s | the value moves from initial to final and stays at final afterwards | not executed | Percentages.DecreasingRampFlatAsWritten, Percentages.DecreasingRampOvershootsAsWritten | Percentages.RampValue, Percentages.RampMonotone |
| flipper/bucketing/percentage/linear_ramp_percentage.py:52 | elapsed time is `(now - initial_time).seconds`, the seconds part of a timedelta, which wraps every day | a ramp 0.0 to 1.0 over an hour starting now reads 0.0 again one day later; a start 10 s in the future reads as 86390 s elapsed | elapsed time is the total number of seconds since the start | not executed | Percentages.RampRepeatsDaily, Percentages.RampWrapExamples | Percentages.RampValue, Percentages.AsWrittenAgreesWithinADay |
