/** A stored flag: its name, its raw on/off switch and its metadata, and the rule
  * that decides whether the flag is on for a caller. */
module Item {
  import opened Wrappers
  import opened Values
  import Dicts
  import Conditions
  import Bucketers
  import Meta

  datatype Item = Item(name: string, enabled: bool, meta: Meta.Meta)

  /** `all(c.check(**attrs) for c in conditions)`: the conditions in order, stopping
    * at the first that is not satisfied or that raises. */
  function AllSatisfied(cs: seq<Conditions.Condition>, attrs: Dicts.Dict<Value>): Result<bool> {
    if |cs| == 0 then Ok(true)
    else
      var ok :- Conditions.Satisfies(cs[0], attrs);
      if !ok then Ok(false) else AllSatisfied(cs[1..], attrs)
  }

  /** The conditions after `all(...)`: those evaluated have recorded the names they
    * read; those after the first failure were not evaluated. */
  function AfterAll(cs: seq<Conditions.Condition>, attrs: Dicts.Dict<Value>): (r: seq<Conditions.Condition>)
    ensures |r| == |cs|
  {
    if |cs| == 0 then []
    else if Conditions.Satisfies(cs[0], attrs) == Ok(true) then
      [Conditions.Touched(cs[0], attrs)] + AfterAll(cs[1..], attrs)
    else [Conditions.Touched(cs[0], attrs)] + cs[1..]
  }

  /** `_all_conditions_satisfied`, evaluating one condition after the other. */
  method CheckConditions(cs: seq<Conditions.Condition>, attrs: Dicts.Dict<Value>)
    returns (r: Result<bool>, after: seq<Conditions.Condition>)
    ensures r == AllSatisfied(cs, attrs)
    ensures after == AfterAll(cs, attrs)
  {
    var i := 0;
    var done: seq<Conditions.Condition> := [];
    assert cs[0..] == cs;
    while i < |cs|
      invariant 0 <= i <= |cs|
      invariant AllSatisfied(cs, attrs) == AllSatisfied(cs[i..], attrs)
      invariant AfterAll(cs, attrs) == done + AfterAll(cs[i..], attrs)
    {
      var ok, touched := Conditions.CheckAll(cs[i], attrs);
      Step(cs, attrs, i, done);
      if ok != Ok(true) {
        return ok, done + [touched] + cs[i + 1..];
      }
      done := done + [touched];
      i := i + 1;
    }
    assert AfterAll(cs[i..], attrs) == [];
    assert done + [] == done;
    return Ok(true), done;
  }

  /** One condition of the `all(...)` loop: a satisfied condition hands over to
    * the rest; any other outcome ends the loop. */
  lemma Step(cs: seq<Conditions.Condition>, attrs: Dicts.Dict<Value>, i: int, done: seq<Conditions.Condition>)
    requires 0 <= i < |cs|
    ensures Conditions.Satisfies(cs[i], attrs) == Ok(true) ==>
      AllSatisfied(cs[i..], attrs) == AllSatisfied(cs[i + 1..], attrs) &&
      done + AfterAll(cs[i..], attrs) == (done + [Conditions.Touched(cs[i], attrs)]) + AfterAll(cs[i + 1..], attrs)
    ensures Conditions.Satisfies(cs[i], attrs) != Ok(true) ==>
      AllSatisfied(cs[i..], attrs) == Conditions.Satisfies(cs[i], attrs) &&
      done + AfterAll(cs[i..], attrs) == done + [Conditions.Touched(cs[i], attrs)] + cs[i + 1..]
  {
    assert cs[i..][0] == cs[i];
    assert cs[i..][1..] == cs[i + 1..];
    var t := [Conditions.Touched(cs[i], attrs)];
    assert done + (t + AfterAll(cs[i + 1..], attrs)) == (done + t) + AfterAll(cs[i + 1..], attrs);
    assert done + (t + cs[i + 1..]) == done + t + cs[i + 1..];
  }

  /** `_has_bucketer`: any bucketer whose type is not the no-op one. */
  predicate HasBucketer(i: Item) {
    Bucketers.TypeName(i.meta.bucketer) != "NoOpBucketer"
  }

  /** `is_enabled(**attrs)`: a flag switched off is off; with attributes and
    * conditions, the conditions alone decide; otherwise a bucketer, if there is
    * one, decides; otherwise the flag is on. `draw`, `hash` and `now` stand for
    * the random draw, the attribute hash and the clock. */
  function IsEnabled(i: Item, attrs: Dicts.Dict<Value>, draw: real, hash: Bucketers.Hash, now: int): (r: Result<bool>)
    requires Dicts.DistinctKeys(attrs)
    ensures r == Ok(true) || r.Err? ==> i.enabled
    ensures i.enabled && (|attrs| == 0 || |i.meta.conditions| == 0) && !HasBucketer(i) ==> r == Ok(true)
  {
    if !i.enabled then Ok(false)
    else if |attrs| > 0 && |i.meta.conditions| > 0 then AllSatisfied(i.meta.conditions, attrs)
    else if HasBucketer(i) then Bucketers.Check(i.meta.bucketer, attrs, draw, hash, now)
    else Ok(true)
  }

  /** The item after `is_enabled(**attrs)`: only the conditions change, and only
    * when they were evaluated. */
  function AfterIsEnabled(i: Item, attrs: Dicts.Dict<Value>): Item {
    if i.enabled && |attrs| > 0 && |i.meta.conditions| > 0 then
      i.(meta := i.meta.(conditions := AfterAll(i.meta.conditions, attrs)))
    else i
  }

  /** `is_enabled(**attrs)` on a stored item: the answer, and the item as the
    * evaluation leaves it. */
  method Evaluate(i: Item, attrs: Dicts.Dict<Value>, draw: real, hash: Bucketers.Hash, now: int)
    returns (r: Result<bool>, after: Item)
    requires Dicts.DistinctKeys(attrs)
    ensures r == IsEnabled(i, attrs, draw, hash, now)
    ensures after == AfterIsEnabled(i, attrs)
  {
    after := i;
    if !i.enabled {
      return Ok(false), after;
    }
    if |attrs| > 0 && |i.meta.conditions| > 0 {
      var touched;
      r, touched := CheckConditions(i.meta.conditions, attrs);
      after := i.(meta := i.meta.(conditions := touched));
      return;
    }
    if HasBucketer(i) {
      return Bucketers.Check(i.meta.bucketer, attrs, draw, hash, now), after;
    }
    r := Ok(true);
  }

  // What the decision rule promises.

  lemma {:induction false} AllSatisfiedIff(cs: seq<Conditions.Condition>, attrs: Dicts.Dict<Value>)
    ensures AllSatisfied(cs, attrs) == Ok(true) <==> forall k :: 0 <= k < |cs| ==> Conditions.Satisfies(cs[k], attrs) == Ok(true)
    decreases |cs|
  {
    if |cs| > 0 {
      AllSatisfiedIff(cs[1..], attrs);
      assert forall k :: 1 <= k < |cs| ==> cs[k] == cs[1..][k - 1];
    }
  }

  /** A flag switched off is off for everyone, whatever its conditions and
    * bucketer. */
  lemma DisabledIsOff(i: Item, attrs: Dicts.Dict<Value>, draw: real, hash: Bucketers.Hash, now: int)
    requires Dicts.DistinctKeys(attrs) && !i.enabled
    ensures IsEnabled(i, attrs, draw, hash, now) == Ok(false)
    ensures AfterIsEnabled(i, attrs) == i
  {
  }

  /** With attributes and at least one condition, the flag is on exactly when every
    * condition is satisfied, and the bucketer is not consulted. */
  lemma ConditionsDecide(i: Item, attrs: Dicts.Dict<Value>, draw: real, hash: Bucketers.Hash, now: int,
                         other: Bucketers.Bucketer, draw': real, hash': Bucketers.Hash)
    requires Dicts.DistinctKeys(attrs) && i.enabled && |attrs| > 0 && |i.meta.conditions| > 0
    ensures IsEnabled(i, attrs, draw, hash, now) == Ok(true) <==>
      forall k :: 0 <= k < |i.meta.conditions| ==> Conditions.Satisfies(i.meta.conditions[k], attrs) == Ok(true)
    ensures IsEnabled(i, attrs, draw, hash, now) == IsEnabled(i.(meta := i.meta.(bucketer := other)), attrs, draw', hash', now)
  {
    AllSatisfiedIff(i.meta.conditions, attrs);
  }

  /** Without attributes, or without conditions, a bucketer decides and receives
    * all the attributes. */
  lemma BucketerDecides(i: Item, attrs: Dicts.Dict<Value>, draw: real, hash: Bucketers.Hash, now: int)
    requires Dicts.DistinctKeys(attrs) && i.enabled && (|attrs| == 0 || |i.meta.conditions| == 0)
    requires !i.meta.bucketer.NoOp?
    ensures IsEnabled(i, attrs, draw, hash, now) == Bucketers.Check(i.meta.bucketer, attrs, draw, hash, now)
  {
  }

  /** Without attributes and without a bucketer the flag is on, whatever its
    * conditions say. */
  lemma ConditionsIgnoredWithoutAttributes(i: Item, draw: real, hash: Bucketers.Hash, now: int)
    requires i.enabled && i.meta.bucketer.NoOp?
    ensures IsEnabled(i, [], draw, hash, now) == Ok(true)
  {
  }

  /** Checking records names but never changes a later answer. */
  lemma {:induction false} AfterAllKeepsAnswers(cs: seq<Conditions.Condition>, attrs: Dicts.Dict<Value>, other: Dicts.Dict<Value>)
    ensures AllSatisfied(AfterAll(cs, attrs), other) == AllSatisfied(cs, other)
    decreases |cs|
  {
    if |cs| > 0 {
      Conditions.TouchedKeepsChecks(cs[0], attrs);
      Conditions.OnlySuppliedNamesMatter(Conditions.Touched(cs[0], attrs), cs[0], other);
      var a := AfterAll(cs, attrs);
      assert a[1..] == if Conditions.Satisfies(cs[0], attrs) == Ok(true) then AfterAll(cs[1..], attrs) else cs[1..];
      AfterAllKeepsAnswers(cs[1..], attrs, other);
    }
  }

  lemma IsEnabledAgain(i: Item, attrs: Dicts.Dict<Value>, other: Dicts.Dict<Value>, draw: real, hash: Bucketers.Hash, now: int)
    requires Dicts.DistinctKeys(attrs) && Dicts.DistinctKeys(other)
    ensures IsEnabled(AfterIsEnabled(i, attrs), other, draw, hash, now) == IsEnabled(i, other, draw, hash, now)
  {
    AfterAllKeepsAnswers(i.meta.conditions, attrs, other);
  }

  // The dictionary form.

  /** `to_dict`. */
  function ToDict(i: Item): (j: Json)
    ensures j.JObj? && Dicts.Keys(j.fields) == ["feature_name", "is_enabled", "meta"]
  {
    JObj([("feature_name", JStr(i.name)), ("is_enabled", JBool(i.enabled)), ("meta", Meta.ToDict(i.meta))])
  }

  /** `deserialize`, after the bytes have been decoded: the three fields are read
    * in order; names that are not strings and switches that are not booleans are
    * not modelled. */
  function Deserialize(j: Json, now: int): (r: Result<Item>)
    ensures !j.JObj? ==> r == Err(TypeError)
    ensures r.Ok? ==> Require(j.fields, "feature_name") == Ok(JStr(r.value.name))
                      && Require(j.fields, "is_enabled") == Ok(JBool(r.value.enabled))
    ensures j.JObj? && Require(j.fields, "meta").Err? ==> r.Err?
  {
    match j
    case JObj(fields) =>
      var name :- Require(fields, "feature_name");
      var enabled :- Require(fields, "is_enabled");
      var meta :- Require(fields, "meta");
      var m :- Meta.FromDict(meta, now);
      if !name.JStr? || !enabled.JBool? then Err(Unsupported)
      else Ok(Item(name.s, enabled.b, m))
    case _ => Err(TypeError)
  }

  /** Every item with a storable meta survives a trip through its dictionary form. */
  lemma DeserializeRoundTrip(i: Item, now: int)
    requires Meta.Storable(i.meta)
    ensures Deserialize(ToDict(i), now) == Ok(i)
  {
    var f := ToDict(i).fields;
    assert f[1].0 != f[0].0;
    assert f[2].0 != f[0].0 && f[2].0 != f[1].0;
    Dicts.GetFirst(f, "feature_name", 0);
    Dicts.GetFirst(f, "is_enabled", 1);
    Dicts.GetFirst(f, "meta", 2);
    Meta.DictRoundTrip(i.meta, now);
    RequireOf(f, "feature_name", JStr(i.name));
    RequireOf(f, "is_enabled", JBool(i.enabled));
    RequireOf(f, "meta", Meta.ToDict(i.meta));
    ReadItem(f, i.name, i.enabled, Meta.ToDict(i.meta), i.meta, now);
  }

  lemma ReadItem(f: Dicts.Dict<Json>, name: string, enabled: bool, mj: Json, m: Meta.Meta, now: int)
    requires Require(f, "feature_name") == Ok(JStr(name))
    requires Require(f, "is_enabled") == Ok(JBool(enabled))
    requires Require(f, "meta") == Ok(mj)
    requires Meta.FromDict(mj, now) == Ok(m)
    ensures Deserialize(JObj(f), now) == Ok(Item(name, enabled, m))
  {
  }

  lemma RequireOf(f: Dicts.Dict<Json>, key: string, v: Json)
    requires Dicts.Get(f, key) == Some(v)
    ensures Require(f, key) == Ok(v)
  {
  }
}
