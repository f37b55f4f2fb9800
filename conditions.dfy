/** A condition: keyword checks grouped per variable. A condition is satisfied by a
  * set of supplied attributes when every check stored under each supplied name
  * passes on the supplied value. */
module Conditions {
  import opened Wrappers
  import opened Values
  import Strings
  import Dicts
  import opened Operators
  import opened Checks

  /** The checks of a condition, one list per variable, the variables in the order
    * they first appeared (the `_checks` defaultdict). */
  datatype Condition = Condition(groups: Dicts.Dict<seq<Check>>)

  /** Reading `_checks[name]`: the checks stored under `name`, none when absent. */
  function Lookup(c: Condition, name: string): seq<Check> {
    match Dicts.Get(c.groups, name)
    case Some(cs) => cs
    case None => []
  }

  // Construction: `Condition(**kwargs)` and `_parse_checks`.

  /** `Check.factory` on every keyword argument in order; the first failure wins. */
  function ParseAll(kwargs: Dicts.Dict<Value>): (r: Result<seq<Check>>)
    ensures r.Ok? ==> |r.value| == |kwargs|
    decreases |kwargs|
  {
    if |kwargs| == 0 then Ok([])
    else
      var c :- FromKey(kwargs[0].0, kwargs[0].1);
      var rest :- ParseAll(kwargs[1..]);
      Ok([c] + rest)
  }

  /** `parsed_checks[c.variable].append(c)`. */
  function Append(groups: Dicts.Dict<seq<Check>>, c: Check): Dicts.Dict<seq<Check>> {
    Dicts.Put(groups, c.variable, Lookup(Condition(groups), c.variable) + [c])
  }

  /** The grouping of a sequence of checks, appended one after the other. */
  function Group(cs: seq<Check>): Dicts.Dict<seq<Check>>
    decreases |cs|
  {
    if |cs| == 0 then [] else Append(Group(cs[..|cs| - 1]), cs[|cs| - 1])
  }

  /** The condition the keyword arguments describe, or the error parsing raises. */
  function Build(kwargs: Dicts.Dict<Value>): Result<Condition> {
    var cs :- ParseAll(kwargs);
    Ok(Condition(Group(cs)))
  }

  function Prepend(cs: seq<Check>, r: Result<seq<Check>>): Result<seq<Check>> {
    match r
    case Ok(t) => Ok(cs + t)
    case Err(e) => Err(e)
  }

  /** One step of parsing: the check of the first argument, then the rest. */
  lemma ParseAllStep(kwargs: Dicts.Dict<Value>, i: nat)
    requires i < |kwargs|
    ensures ParseAll(kwargs[i..]) == match FromKey(kwargs[i].0, kwargs[i].1)
      case Ok(c) => Prepend([c], ParseAll(kwargs[i + 1..]))
      case Err(e) => Err(e)
  {
    assert kwargs[i..][1..] == kwargs[i + 1..];
  }

  lemma PrependTwice(a: seq<Check>, b: seq<Check>, r: Result<seq<Check>>)
    ensures Prepend(a, Prepend(b, r)) == Prepend(a + b, r)
    ensures Prepend([], r) == r
  {
    match r
    case Ok(t) =>
      assert a + (b + t) == (a + b) + t;
      assert [] + t == t;
    case Err(e) =>
  }

  /** Appending one more check extends the grouping of the checks before it. */
  lemma GroupAppend(parsed: seq<Check>, c: Check)
    ensures Append(Group(parsed), c) == Group(parsed + [c])
  {
    assert (parsed + [c])[..|parsed|] == parsed;
  }

  /** The constructor: walks the keyword arguments, parsing each key and appending
    * the check to its variable's list. */
  method New(kwargs: Dicts.Dict<Value>) returns (r: Result<Condition>)
    ensures r == Build(kwargs)
  {
    var groups: Dicts.Dict<seq<Check>> := [];
    ghost var parsed: seq<Check> := [];
    var i := 0;
    assert kwargs[i..] == kwargs;
    PrependTwice([], [], ParseAll(kwargs));
    while i < |kwargs|
      invariant 0 <= i <= |kwargs|
      invariant groups == Group(parsed)
      invariant ParseAll(kwargs) == Prepend(parsed, ParseAll(kwargs[i..]))
    {
      ParseAllStep(kwargs, i);
      var c := FromKey(kwargs[i].0, kwargs[i].1);
      if c.Err? {
        return Err(c.error);
      }
      GroupAppend(parsed, c.value);
      groups := Append(groups, c.value);
      PrependTwice(parsed, [c.value], ParseAll(kwargs[i + 1..]));
      parsed := parsed + [c.value];
      i := i + 1;
    }
    assert kwargs[i..] == [];
    assert ParseAll(kwargs) == Ok(parsed) by {
      assert parsed + [] == parsed;
    }
    return Ok(Condition(groups));
  }

  /** The checks of `cs` on variable `v`, in order. */
  function On(cs: seq<Check>, v: string): (r: seq<Check>)
    ensures forall i :: 0 <= i < |r| ==> r[i] in cs && r[i].variable == v
    decreases |cs|
  {
    if |cs| == 0 then []
    else On(cs[..|cs| - 1], v) + (if cs[|cs| - 1].variable == v then [cs[|cs| - 1]] else [])
  }

  /** Grouping keeps every check, under its own variable, in argument order. */
  lemma {:induction false} GroupLookup(cs: seq<Check>, v: string)
    ensures Lookup(Condition(Group(cs)), v) == On(cs, v)
    decreases |cs|
  {
    if |cs| > 0 {
      GroupLookup(cs[..|cs| - 1], v);
      LookupAppend(Group(cs[..|cs| - 1]), cs[|cs| - 1], v);
    }
  }

  /** Appending a check adds it to the end of its own variable's list only. */
  lemma LookupAppend(groups: Dicts.Dict<seq<Check>>, c: Check, v: string)
    ensures Lookup(Condition(Append(groups, c)), v)
      == Lookup(Condition(groups), v) + (if c.variable == v then [c] else [])
  {
    Dicts.PutGet(groups, c.variable, Lookup(Condition(groups), c.variable) + [c]);
    assert Lookup(Condition(groups), v) + [] == Lookup(Condition(groups), v);
  }

  // Evaluation: `Condition.check`.

  /** The checks of one variable on the supplied value, stopping at the first that
    * does not hold. */
  function AllPass(checks: seq<Check>, v: Value): Result<bool> {
    if |checks| == 0 then Ok(true)
    else
      var ok :- Evaluate(checks[0], v);
      if !ok then Ok(false) else AllPass(checks[1..], v)
  }

  /** The answer of `check(**attrs)`: the supplied attributes in order, each against
    * the checks stored under its name, stopping at the first failure. */
  function Satisfies(c: Condition, attrs: Dicts.Dict<Value>): (r: Result<bool>)
    ensures |attrs| == 0 ==> r == Ok(true)
    ensures |attrs| > 0 && |Lookup(c, attrs[0].0)| == 0 ==> r == Satisfies(c, attrs[1..])
    ensures r == Ok(true) && |attrs| > 0 ==> AllPass(Lookup(c, attrs[0].0), attrs[0].1) == Ok(true)
    decreases |attrs|
  {
    if |attrs| == 0 then Ok(true)
    else
      var ok :- AllPass(Lookup(c, attrs[0].0), attrs[0].1);
      if !ok then Ok(false) else Satisfies(c, attrs[1..])
  }

  /** Every check stored under every supplied name passes on the supplied value. */
  predicate EveryCheckPasses(c: Condition, attrs: Dicts.Dict<Value>) {
    forall i, j :: 0 <= i < |attrs| && 0 <= j < |Lookup(c, attrs[i].0)| ==>
      Evaluate(Lookup(c, attrs[i].0)[j], attrs[i].1) == Ok(true)
  }

  lemma {:induction false} AllPassIff(checks: seq<Check>, v: Value)
    ensures AllPass(checks, v) == Ok(true) <==> forall j :: 0 <= j < |checks| ==> Evaluate(checks[j], v) == Ok(true)
    ensures AllPass(checks, v) == Ok(false) ==> exists j :: 0 <= j < |checks| && Evaluate(checks[j], v) == Ok(false)
    ensures AllPass(checks, v).Err? ==> exists j :: 0 <= j < |checks| && Evaluate(checks[j], v) == Err(AllPass(checks, v).error)
  {
    if |checks| > 0 {
      AllPassIff(checks[1..], v);
      assert forall j :: 1 <= j < |checks| ==> checks[j] == checks[1..][j - 1];
    }
  }

  /** `check` is true exactly when every check stored under each supplied name
    * passes; a false answer comes from a check that fails and an error from a check
    * that raises. */
  lemma {:induction false} SatisfiesIff(c: Condition, attrs: Dicts.Dict<Value>)
    ensures Satisfies(c, attrs) == Ok(true) <==> EveryCheckPasses(c, attrs)
    ensures Satisfies(c, attrs) == Ok(false) ==>
      (exists i, j :: 0 <= i < |attrs| && 0 <= j < |Lookup(c, attrs[i].0)| &&
        Evaluate(Lookup(c, attrs[i].0)[j], attrs[i].1) == Ok(false))
    decreases |attrs|
  {
    if |attrs| > 0 {
      SatisfiesIff(c, attrs[1..]);
      AllPassIff(Lookup(c, attrs[0].0), attrs[0].1);
      assert forall i :: 1 <= i < |attrs| ==> attrs[i] == attrs[1..][i - 1];
      if Satisfies(c, attrs) == Ok(false) && AllPass(Lookup(c, attrs[0].0), attrs[0].1) == Ok(true) {
        var i, j :| 0 <= i < |attrs[1..]| && 0 <= j < |Lookup(c, attrs[1..][i].0)| &&
          Evaluate(Lookup(c, attrs[1..][i].0)[j], attrs[1..][i].1) == Ok(false);
        assert attrs[1..][i] == attrs[i + 1];
      }
    }
  }

  /** With no attributes, every condition is satisfied. */
  lemma NoAttributesSatisfy(c: Condition)
    ensures Satisfies(c, []) == Ok(true)
  {
  }

  /** Only the checks stored under the supplied names are evaluated: two conditions
    * that agree on those names give the same answer, whatever else they declare. */
  lemma {:induction false} OnlySuppliedNamesMatter(c1: Condition, c2: Condition, attrs: Dicts.Dict<Value>)
    requires forall i :: 0 <= i < |attrs| ==> Lookup(c1, attrs[i].0) == Lookup(c2, attrs[i].0)
    ensures Satisfies(c1, attrs) == Satisfies(c2, attrs)
    decreases |attrs|
  {
    if |attrs| > 0 {
      assert Lookup(c1, attrs[0].0) == Lookup(c2, attrs[0].0);
      assert forall i :: 0 <= i < |attrs[1..]| ==> attrs[1..][i] == attrs[i + 1];
      OnlySuppliedNamesMatter(c1, c2, attrs[1..]);
    }
  }

  /** Reading `_checks[name]` through the defaultdict: an absent name is inserted
    * with an empty list of checks. */
  function Touch(c: Condition, name: string): (t: Condition)
    ensures forall v :: Lookup(t, v) == Lookup(c, v)
    ensures name in Dicts.Keys(t.groups)
  {
    if name in Dicts.Keys(c.groups) then c
    else
      Dicts.PutKeys(c.groups, name, []);
      Dicts.PutGet(c.groups, name, []);
      Condition(Dicts.Put(c.groups, name, []))
  }

  /** The condition after `check(**attrs)`: every name read before the loop stopped
    * has been inserted. */
  function Touched(c: Condition, attrs: Dicts.Dict<Value>): Condition
    decreases |attrs|
  {
    if |attrs| == 0 then c
    else
      var t := Touch(c, attrs[0].0);
      if AllPass(Lookup(t, attrs[0].0), attrs[0].1) == Ok(true) then Touched(t, attrs[1..]) else t
  }

  /** `Condition.check(**attrs)`: the answer, and the condition with the names it
    * read inserted. */
  method CheckAll(c: Condition, attrs: Dicts.Dict<Value>) returns (r: Result<bool>, after: Condition)
    ensures r == Satisfies(c, attrs)
    ensures after == Touched(c, attrs)
  {
    after := c;
    var i := 0;
    while i < |attrs|
      invariant 0 <= i <= |attrs|
      invariant forall v :: Lookup(after, v) == Lookup(c, v)
      invariant Satisfies(c, attrs) == Satisfies(c, attrs[i..])
      invariant Touched(c, attrs) == Touched(after, attrs[i..])
    {
      assert attrs[i..][1..] == attrs[i + 1..];
      var name, value := attrs[i].0, attrs[i].1;
      after := Touch(after, name);
      var checkers := Lookup(after, name);
      var j := 0;
      while j < |checkers|
        invariant 0 <= j <= |checkers|
        invariant AllPass(checkers, value) == AllPass(checkers[j..], value)
      {
        assert checkers[j..][1..] == checkers[j + 1..];
        var ok := Evaluate(checkers[j], value);
        if ok.Err? {
          return Err(ok.error), after;
        }
        if !ok.value {
          return Ok(false), after;
        }
        j := j + 1;
      }
      i := i + 1;
    }
    return Ok(true), after;
  }

  /** Checking never changes an answer: the inserted lists are empty. */
  lemma {:induction false} TouchedKeepsChecks(c: Condition, attrs: Dicts.Dict<Value>)
    ensures forall v :: Lookup(Touched(c, attrs), v) == Lookup(c, v)
    ensures forall i :: 0 <= i < |c.groups| ==> c.groups[i] in Touched(c, attrs).groups
    decreases |attrs|
  {
    if |attrs| > 0 {
      var t := Touch(c, attrs[0].0);
      if attrs[0].0 !in Dicts.Keys(c.groups) {
        Dicts.PutNew(c.groups, attrs[0].0, []);
      }
      assert forall i :: 0 <= i < |c.groups| ==> c.groups[i] in t.groups;
      TouchedKeepsChecks(t, attrs[1..]);
    }
  }

  // The dictionary form.

  function ChecksToJson(cs: seq<Check>): (js: seq<Json>)
    ensures |js| == |cs| && forall i :: 0 <= i < |cs| ==> js[i] == Checks.ToDict(cs[i])
  {
    if |cs| == 0 then [] else [Checks.ToDict(cs[0])] + ChecksToJson(cs[1..])
  }

  function GroupsToJson(g: Dicts.Dict<seq<Check>>): (r: Dicts.Dict<Json>)
    ensures |r| == |g| && forall i :: 0 <= i < |g| ==> r[i] == (g[i].0, JArr(ChecksToJson(g[i].1)))
  {
    if |g| == 0 then [] else [(g[0].0, JArr(ChecksToJson(g[0].1)))] + GroupsToJson(g[1..])
  }

  /** `Condition.to_dict`: each variable mapped to the dictionary forms of its
    * checks, in order. */
  function ToDict(c: Condition): Json {
    JObj(GroupsToJson(c.groups))
  }

  /** An untracked name read by `check` shows up in a later `to_dict` with an empty
    * list of checks. */
  lemma CheckRecordsUntrackedName(c: Condition, attrs: Dicts.Dict<Value>)
    requires |attrs| > 0 && attrs[0].0 !in Dicts.Keys(c.groups)
    ensures (attrs[0].0, JArr([])) in ToDict(Touched(c, attrs)).fields
  {
    var n := attrs[0].0;
    var t := Touch(c, n);
    Dicts.PutNew(c.groups, n, []);
    assert t.groups[|c.groups|] == (n, []);
    var after := Touched(c, attrs);
    if AllPass(Lookup(t, n), attrs[0].1) == Ok(true) {
      TouchedKeepsChecks(t, attrs[1..]);
    }
    assert (n, []) in after.groups;
    var k :| 0 <= k < |after.groups| && after.groups[k] == (n, []);
    assert GroupsToJson(after.groups)[k] == (n, JArr([]));
  }

  /** `make_check_key` on the raw `variable` and `operator` fields of a stored check;
    * a keyword name must be a string. */
  function KeyFromJson(variable: Json, operator: Json): Result<string> {
    match operator
    case JNull => if variable.JStr? then Ok(variable.s) else Err(TypeError)
    case JStr(s) => if variable.JStr? then Ok(MakeKey(variable.s, Some(s))) else Err(TypeError)
    case _ => Err(TypeError)
  }

  /** `constructor_kwargs[key] = check["value"]` for one stored check. */
  function AddKwarg(kwargs: Dicts.Dict<Value>, check: Json): Result<Dicts.Dict<Value>> {
    match check
    case JObj(fields) =>
      var variable :- Require(fields, "variable");
      var operator :- Require(fields, "operator");
      var key :- KeyFromJson(variable, operator);
      var value :- Require(fields, "value");
      var v :- FromJson(value);
      Ok(Dicts.Put(kwargs, key, v))
    case _ => Err(TypeError)
  }

  function AddKwargs(kwargs: Dicts.Dict<Value>, checks: seq<Json>): Result<Dicts.Dict<Value>>
    decreases |checks|
  {
    if |checks| == 0 then Ok(kwargs)
    else
      var next :- AddKwarg(kwargs, checks[0]);
      AddKwargs(next, checks[1..])
  }

  /** Iterating over the checks stored under one variable: a list is walked, an
    * empty string or dictionary yields nothing, and anything else fails. */
  function AddGroupKwargs(kwargs: Dicts.Dict<Value>, checks: Json): Result<Dicts.Dict<Value>> {
    match checks
    case JArr(items) => AddKwargs(kwargs, items)
    case JStr(s) => if |s| == 0 then Ok(kwargs) else Err(TypeError)
    case JObj(f) => if |f| == 0 then Ok(kwargs) else Err(TypeError)
    case _ => Err(TypeError)
  }

  function AddAllKwargs(kwargs: Dicts.Dict<Value>, groups: Dicts.Dict<Json>): Result<Dicts.Dict<Value>>
    decreases |groups|
  {
    if |groups| == 0 then Ok(kwargs)
    else
      var next :- AddGroupKwargs(kwargs, groups[0].1);
      AddAllKwargs(next, groups[1..])
  }

  /** `Condition.from_dict`: every stored check becomes a keyword argument under the
    * key `make_check_key` gives it (a later check with the same key overwrites an
    * earlier one), and the condition is built from those arguments. */
  function FromDict(j: Json): (r: Result<Condition>)
    ensures !j.JObj? ==> r == Err(AttributeError)
  {
    match j
    case JObj(groups) =>
      var kwargs :- AddAllKwargs([], groups);
      Build(kwargs)
    case _ => Err(AttributeError)
  }

  // The round trip through the dictionary form.

  /** A check whose key parses back to its own variable and operator. */
  predicate KeyFaithful(ch: Check) {
    ParseKey(KeyOf(ch)) == Ok((ch.variable, ch.operator))
  }

  predicate AllFaithful(cs: seq<Check>) {
    forall k :: 0 <= k < |cs| ==> KeyFaithful(cs[k])
  }

  /** The checks of one variable as the constructor groups them: at least one, all
    * on that variable, with distinct operators. */
  predicate GroupCanonical(v: string, chs: seq<Check>) {
    |chs| > 0 &&
    (forall j :: 0 <= j < |chs| ==> chs[j].variable == v) &&
    (forall j, k :: 0 <= j < k < |chs| ==> chs[j].operator != chs[k].operator)
  }

  /** Distinct variables, each with a canonical group. */
  predicate Grouped(g: Dicts.Dict<seq<Check>>) {
    Dicts.DistinctKeys(g) && forall i :: 0 <= i < |g| ==> GroupCanonical(g[i].0, g[i].1)
  }

  /** All checks of all groups, in order. */
  function Flatten(g: Dicts.Dict<seq<Check>>): seq<Check>
    decreases |g|
  {
    if |g| == 0 then [] else Flatten(g[..|g| - 1]) + g[|g| - 1].1
  }

  /** A condition as the constructor builds it from distinct keyword arguments:
    * grouped by variable, every check with a key that parses back to it. */
  predicate Canonical(c: Condition) {
    Grouped(c.groups) && AllFaithful(Flatten(c.groups))
  }

  /** The keyword arguments that rebuild the given checks. */
  function KwargsOf(cs: seq<Check>): (kw: Dicts.Dict<Value>)
    ensures |kw| == |cs| && forall i :: 0 <= i < |cs| ==> kw[i] == (KeyOf(cs[i]), cs[i].value)
  {
    if |cs| == 0 then [] else [(KeyOf(cs[0]), cs[0].value)] + KwargsOf(cs[1..])
  }

  predicate DistinctKeysOf(cs: seq<Check>) {
    forall i, j :: 0 <= i < j < |cs| ==> KeyOf(cs[i]) != KeyOf(cs[j])
  }

  /** No two checks share both a variable and an operator. */
  predicate DistinctPairs(cs: seq<Check>) {
    forall i, j :: 0 <= i < j < |cs| ==> cs[i].variable != cs[j].variable || cs[i].operator != cs[j].operator
  }

  lemma AddKwargOfCheck(kwargs: Dicts.Dict<Value>, ch: Check)
    ensures AddKwarg(kwargs, Checks.ToDict(ch)) == Ok(Dicts.Put(kwargs, KeyOf(ch), ch.value))
  {
    var fields := Checks.ToDict(ch).fields;
    Checks.ToDictFields(ch);
    assert KeyFromJson(JStr(ch.variable), SymbolToJson(Symbol(ch.operator))) == Ok(KeyOf(ch)) by {
      match Symbol(ch.operator)
      case None =>
      case Some(s) =>
    }
    JsonRoundTrip(ch.value);
  }

  /** Reading the stored checks of one variable writes their keyword arguments in
    * order. */
  lemma {:induction false} AddKwargsOfChecks(kwargs: Dicts.Dict<Value>, cs: seq<Check>)
    ensures AddKwargs(kwargs, ChecksToJson(cs)) == Ok(Dicts.Update(kwargs, KwargsOf(cs)))
    decreases |cs|
  {
    if |cs| > 0 {
      var js := ChecksToJson(cs);
      AddKwargOfCheck(kwargs, cs[0]);
      assert js[1..] == ChecksToJson(cs[1..]);
      AddKwargsOfChecks(Dicts.Put(kwargs, KeyOf(cs[0]), cs[0].value), cs[1..]);
      assert KwargsOf(cs)[1..] == KwargsOf(cs[1..]);
    }
  }

  lemma {:induction false} FlattenCons(g: Dicts.Dict<seq<Check>>)
    requires |g| > 0
    ensures Flatten(g) == g[0].1 + Flatten(g[1..])
    decreases |g|
  {
    if |g| > 1 {
      FlattenCons(g[..|g| - 1]);
      assert g[..|g| - 1][1..] == g[1..][..|g[1..]| - 1];
    }
  }

  lemma KwargsOfConcat(a: seq<Check>, b: seq<Check>)
    ensures KwargsOf(a + b) == KwargsOf(a) + KwargsOf(b)
  {
  }

  /** Reading every group writes the keyword arguments of all checks in order. */
  lemma {:induction false} AddAllKwargsOfGroups(kwargs: Dicts.Dict<Value>, g: Dicts.Dict<seq<Check>>)
    ensures AddAllKwargs(kwargs, GroupsToJson(g)) == Ok(Dicts.Update(kwargs, KwargsOf(Flatten(g))))
    decreases |g|
  {
    if |g| > 0 {
      FlattenCons(g);
      var chs, rest := g[0].1, Flatten(g[1..]);
      AddKwargsOfChecks(kwargs, chs);
      var next := Dicts.Update(kwargs, KwargsOf(chs));
      assert GroupsToJson(g)[1..] == GroupsToJson(g[1..]);
      assert AddGroupKwargs(kwargs, GroupsToJson(g)[0].1) == Ok(next);
      AddAllKwargsOfGroups(next, g[1..]);
      KwargsOfConcat(chs, rest);
      Dicts.UpdateConcat(kwargs, KwargsOf(chs), KwargsOf(rest));
    }
  }

  /** Checks with distinct keys give keyword arguments with distinct names. */
  lemma KwargsOfDistinct(cs: seq<Check>)
    requires DistinctKeysOf(cs)
    ensures Dicts.DistinctKeys(KwargsOf(cs))
  {
  }

  /** Checks with faithful keys are parsed back from their keyword arguments. */
  lemma {:induction false} ParseAllKwargsOf(cs: seq<Check>)
    requires AllFaithful(cs)
    ensures ParseAll(KwargsOf(cs)) == Ok(cs)
    decreases |cs|
  {
    if |cs| > 0 {
      var kw := KwargsOf(cs);
      assert kw[0] == (KeyOf(cs[0]), cs[0].value);
      assert kw[1..] == KwargsOf(cs[1..]);
      assert FromKey(KeyOf(cs[0]), cs[0].value) == Ok(cs[0]) by {
        assert KeyFaithful(cs[0]);
      }
      assert AllFaithful(cs[1..]) by {
        forall k | 0 <= k < |cs[1..]| ensures KeyFaithful(cs[1..][k]) {
          assert cs[1..][k] == cs[k + 1];
        }
      }
      ParseAllKwargsOf(cs[1..]);
      assert ParseAll(kw) == Ok([cs[0]] + cs[1..]);
      assert cs == [cs[0]] + cs[1..];
    }
  }

  /** The first check on a variable not yet present opens a new group at the end. */
  lemma AppendFresh(gp: Dicts.Dict<seq<Check>>, c: Check)
    requires c.variable !in Dicts.Keys(gp)
    ensures Append(gp, c) == gp + [(c.variable, [c])]
  {
    assert Lookup(Condition(gp), c.variable) == [];
    assert [] + [c] == [c];
    Dicts.PutNew(gp, c.variable, [c]);
  }

  /** A further check on the variable of the last group extends that group. */
  lemma AppendLast(gp: Dicts.Dict<seq<Check>>, chs: seq<Check>, c: Check)
    requires c.variable !in Dicts.Keys(gp)
    ensures Append(gp + [(c.variable, chs)], c) == gp + [(c.variable, chs + [c])]
  {
    Dicts.GetAppended(gp, c.variable, chs);
    Dicts.PutLast(gp, c.variable, chs, chs + [c]);
  }

  /** Appending the checks of one more variable, one at a time, adds one group. */
  lemma {:induction false} GroupOntoGroups(gp: Dicts.Dict<seq<Check>>, f: seq<Check>, v: string, chs: seq<Check>)
    requires Group(f) == gp && v !in Dicts.Keys(gp)
    requires forall j :: 0 <= j < |chs| ==> chs[j].variable == v
    requires |chs| >= 1
    ensures Group(f + chs) == gp + [(v, chs)]
    decreases |chs|
  {
    var m := |chs|;
    var x := chs[m - 1];
    if m == 1 {
      GroupSnoc(gp, f, v, [], x);
      assert [] + [x] == chs;
    } else {
      GroupOntoGroups(gp, f, v, chs[..m - 1]);
      GroupOntoLast(gp, f, v, chs);
    }
  }

  /** The inductive step of GroupOntoGroups: the last check joins the group of
    * the checks before it. */
  lemma GroupOntoLast(gp: Dicts.Dict<seq<Check>>, f: seq<Check>, v: string, chs: seq<Check>)
    requires v !in Dicts.Keys(gp) && |chs| >= 2 && chs[|chs| - 1].variable == v
    requires Group(f + chs[..|chs| - 1]) == gp + [(v, chs[..|chs| - 1])]
    ensures Group(f + chs) == gp + [(v, chs)]
  {
    var init, x := chs[..|chs| - 1], chs[|chs| - 1];
    GroupSnoc(gp, f + init, v, init, x);
    SplitLast(f, chs);
  }

  lemma SplitLast(f: seq<Check>, chs: seq<Check>)
    requires |chs| >= 1
    ensures chs[..|chs| - 1] + [chs[|chs| - 1]] == chs
    ensures (f + chs[..|chs| - 1]) + [chs[|chs| - 1]] == f + chs
  {
  }

  /** One more check on the variable of the last group, or on a fresh variable. */
  lemma GroupSnoc(gp: Dicts.Dict<seq<Check>>, prev: seq<Check>, v: string, init: seq<Check>, x: Check)
    requires v !in Dicts.Keys(gp) && x.variable == v
    requires Group(prev) == if |init| == 0 then gp else gp + [(v, init)]
    ensures Group(prev + [x]) == gp + [(v, init + [x])]
  {
    GroupAppend(prev, x);
    if |init| == 0 {
      AppendFresh(gp, x);
      assert init + [x] == [x];
    } else {
      AppendLast(gp, init, x);
    }
  }

  /** Removing the last group of a grouping leaves a grouping that does not hold
    * the removed variable. */
  lemma GroupedPrefix(g: Dicts.Dict<seq<Check>>, gp: Dicts.Dict<seq<Check>>)
    requires |g| > 0 && gp == g[..|g| - 1] && Grouped(g)
    ensures Grouped(gp)
    ensures g[|g| - 1].0 !in Dicts.Keys(gp)
    ensures g == gp + [g[|g| - 1]]
  {
    assert forall i :: 0 <= i < |gp| ==> gp[i] == g[i];
    assert forall i :: 0 <= i < |gp| ==> Dicts.Keys(gp)[i] == g[i].0;
  }

  /** Grouping the flattened checks of a grouping gives it back. */
  lemma {:induction false} GroupFlatten(g: Dicts.Dict<seq<Check>>)
    requires Grouped(g)
    ensures Group(Flatten(g)) == g
    decreases |g|
  {
    if |g| > 0 {
      var gp, v, chs := g[..|g| - 1], g[|g| - 1].0, g[|g| - 1].1;
      GroupedPrefix(g, gp);
      GroupFlatten(gp);
      GroupOntoGroups(gp, Flatten(gp), v, chs);
    }
  }

  /** Every flattened check comes from some group. */
  lemma {:induction false} FlattenMember(g: Dicts.Dict<seq<Check>>, k: int)
    requires 0 <= k < |Flatten(g)|
    ensures exists i, j :: 0 <= i < |g| && 0 <= j < |g[i].1| && Flatten(g)[k] == g[i].1[j]
    decreases |g|
  {
    var n := |g| - 1;
    var f := Flatten(g[..n]);
    if k < |f| {
      FlattenMember(g[..n], k);
      var i, j :| 0 <= i < n && 0 <= j < |g[..n][i].1| && f[k] == g[..n][i].1[j];
      assert g[..n][i] == g[i];
    } else {
      assert Flatten(g)[k] == g[n].1[k - |f|];
    }
  }

  /** In a grouping, no two checks share both a variable and an operator. */
  lemma {:induction false} GroupedPairsDistinct(g: Dicts.Dict<seq<Check>>)
    requires Grouped(g)
    ensures DistinctPairs(Flatten(g))
    decreases |g|
  {
    if |g| > 0 {
      var gp, chs := g[..|g| - 1], g[|g| - 1].1;
      GroupedPrefix(g, gp);
      GroupedPairsDistinct(gp);
      var f, fp := Flatten(g), Flatten(gp);
      assert f == fp + chs;
      forall a, b | 0 <= a < b < |f| ensures f[a].variable != f[b].variable || f[a].operator != f[b].operator {
        if b >= |fp| {
          assert f[b] == chs[b - |fp|];
          if a >= |fp| {
            assert f[a] == chs[a - |fp|];
          } else {
            assert f[a] == fp[a];
            FlattenMember(gp, a);
            var i, j :| 0 <= i < |gp| && 0 <= j < |gp[i].1| && fp[a] == gp[i].1[j];
            assert f[a].variable == gp[i].0 != g[|g| - 1].0 == f[b].variable;
          }
        } else {
          assert f[a] == fp[a] && f[b] == fp[b];
        }
      }
    }
  }

  /** Checks with faithful keys and distinct (variable, operator) pairs have
    * distinct keys. */
  lemma FaithfulKeysDistinct(cs: seq<Check>)
    requires DistinctPairs(cs) && AllFaithful(cs)
    ensures DistinctKeysOf(cs)
  {
    forall a, b | 0 <= a < b < |cs| ensures KeyOf(cs[a]) != KeyOf(cs[b]) {
      assert KeyFaithful(cs[a]) && KeyFaithful(cs[b]);
    }
  }

  /** Reading the dictionary form of a canonical condition gives back the keyword
    * arguments of its checks, each once. */
  lemma CanonicalKwargs(c: Condition)
    requires Canonical(c)
    ensures AddAllKwargs([], GroupsToJson(c.groups)) == Ok(KwargsOf(Flatten(c.groups)))
  {
    var f := Flatten(c.groups);
    GroupedPairsDistinct(c.groups);
    FaithfulKeysDistinct(f);
    AddAllKwargsOfGroups([], c.groups);
    KwargsOfDistinct(f);
    Dicts.UpdateFresh([], KwargsOf(f));
    assert [] + KwargsOf(f) == KwargsOf(f);
  }

  /** A canonical condition survives a trip through its dictionary form. */
  lemma DictRoundTrip(c: Condition)
    requires Canonical(c)
    ensures FromDict(ToDict(c)) == Ok(c)
  {
    var f := Flatten(c.groups);
    CanonicalKwargs(c);
    ParseAllKwargsOf(f);
    GroupFlatten(c.groups);
    FromDictOfParts(c, KwargsOf(f), f);
  }

  lemma FromDictOfParts(c: Condition, kwargs: Dicts.Dict<Value>, cs: seq<Check>)
    requires AddAllKwargs([], GroupsToJson(c.groups)) == Ok(kwargs)
    requires ParseAll(kwargs) == Ok(cs) && Group(cs) == c.groups
    ensures FromDict(ToDict(c)) == Ok(c)
  {
  }

  // Conditions built by the constructor are canonical.

  lemma {:induction false} ParseAllElements(kwargs: Dicts.Dict<Value>)
    requires ParseAll(kwargs).Ok?
    ensures forall i :: 0 <= i < |kwargs| ==>
      FromKey(kwargs[i].0, kwargs[i].1) == Ok(ParseAll(kwargs).value[i])
    decreases |kwargs|
  {
    if |kwargs| > 0 {
      ParseAllElements(kwargs[1..]);
      assert forall i :: 1 <= i < |kwargs| ==> kwargs[i] == kwargs[1..][i - 1];
    }
  }

  /** Appending a check whose (variable, operator) pair is new keeps a grouping. */
  lemma {:induction false} AppendGrouped(gp: Dicts.Dict<seq<Check>>, cp: seq<Check>, c: Check)
    requires Grouped(gp) && Lookup(Condition(gp), c.variable) == On(cp, c.variable)
    requires forall j :: 0 <= j < |cp| && cp[j].variable == c.variable ==> cp[j].operator != c.operator
    ensures Grouped(Append(gp, c))
  {
    var v := c.variable;
    var old_ := Lookup(Condition(gp), v);
    var grp := old_ + [c];
    Dicts.PutDistinct(gp, v, grp);
    Dicts.PutEntries(gp, v, grp);
    var g := Append(gp, c);
    assert GroupCanonical(v, grp) by {
      forall j, k | 0 <= j < k < |grp| ensures grp[j].operator != grp[k].operator {
        if k == |old_| {
          var a :| 0 <= a < |cp| && cp[a] == grp[j];
        } else {
          var a :| 0 <= a < |gp| && gp[a] == (v, old_);
          assert GroupCanonical(gp[a].0, gp[a].1);
        }
      }
    }
    forall i | 0 <= i < |g| ensures GroupCanonical(g[i].0, g[i].1) {
      if g[i].0 != v {
        var a :| 0 <= a < |gp| && gp[a] == g[i];
      }
    }
  }

  /** Grouping checks with distinct (variable, operator) pairs gives a grouping. */
  lemma {:induction false} GroupedFromPairs(cs: seq<Check>)
    requires DistinctPairs(cs)
    ensures Grouped(Group(cs))
    decreases |cs|
  {
    if |cs| > 0 {
      var n := |cs| - 1;
      var cp := cs[..n];
      assert forall i :: 0 <= i < n ==> cp[i] == cs[i];
      GroupedFromPairs(cp);
      GroupLookup(cp, cs[n].variable);
      AppendGrouped(Group(cp), cp, cs[n]);
    }
  }

  /** Every check of a grouping is one of the grouped checks. */
  lemma GroupMembers(cs: seq<Check>, k: int)
    requires Dicts.DistinctKeys(Group(cs)) && 0 <= k < |Flatten(Group(cs))|
    ensures Flatten(Group(cs))[k] in cs
  {
    var g := Group(cs);
    FlattenMember(g, k);
    var i, j :| 0 <= i < |g| && 0 <= j < |g[i].1| && Flatten(g)[k] == g[i].1[j];
    Dicts.GetDistinct(g, g[i].0, i);
    GroupLookup(cs, g[i].0);
  }

  /** The constructor, given distinct keyword names, builds a canonical condition;
    * hence every condition it builds survives a trip through its dictionary form. */
  lemma BuildCanonical(kwargs: Dicts.Dict<Value>)
    requires Dicts.DistinctKeys(kwargs) && Build(kwargs).Ok?
    ensures Canonical(Build(kwargs).value)
    ensures FromDict(ToDict(Build(kwargs).value)) == Build(kwargs)
  {
    var cs := ParseAll(kwargs).value;
    ParseAllElements(kwargs);
    forall i | 0 <= i < |cs| ensures KeyFaithful(cs[i]) && KeyOf(cs[i]) == kwargs[i].0 {
      FromKeyKeyOf(kwargs[i].0, kwargs[i].1);
    }
    forall i, j | 0 <= i < j < |cs| ensures cs[i].variable != cs[j].variable || cs[i].operator != cs[j].operator {
      assert kwargs[i].0 != kwargs[j].0;
    }
    GroupedFromPairs(cs);
    var f := Flatten(Group(cs));
    forall k | 0 <= k < |f| ensures KeyFaithful(f[k]) {
      GroupMembers(cs, k);
    }
    DictRoundTrip(Build(kwargs).value);
  }

  // Examples.

  lemma BuildOfParsed(kwargs: Dicts.Dict<Value>, cs: seq<Check>)
    requires ParseAll(kwargs) == Ok(cs)
    ensures Build(kwargs) == Ok(Condition(Group(cs)))
  {
  }

  lemma SafeVariables()
    ensures KeySafe("baz") && KeySafe("x")
  {
    forall i | 0 <= i ensures !Strings.DelimiterAt("baz", i) && !Strings.DelimiterAt("x", i) {
    }
  }

  /** `Condition(baz__gt=99, baz__lt=103)` holds both checks under "baz", in order. */
  lemma TwoChecksOnOneVariable()
    ensures Build([("baz__gt", VInt(99)), ("baz__lt", VInt(103))])
      == Ok(Condition([("baz", [Check("baz", VInt(99), GreaterThan), Check("baz", VInt(103), LessThan)])]))
  {
    var c0, c1 := Check("baz", VInt(99), GreaterThan), Check("baz", VInt(103), LessThan);
    ParseBazKeys(c0, c1);
    BuildOfParsed([("baz__gt", VInt(99)), ("baz__lt", VInt(103))], [c0, c1]);
    GroupOneVariable(c0, c1);
  }

  lemma ParseBazKeys(c0: Check, c1: Check)
    requires c0 == Check("baz", VInt(99), GreaterThan) && c1 == Check("baz", VInt(103), LessThan)
    ensures ParseAll([("baz__gt", VInt(99)), ("baz__lt", VInt(103))]) == Ok([c0, c1])
  {
    SafeVariables();
    BazKeys();
    ParseMadeKey("baz", GreaterThan, "baz__gt", VInt(99));
    ParseMadeKey("baz", LessThan, "baz__lt", VInt(103));
    ParsePair(("baz__gt", VInt(99)), ("baz__lt", VInt(103)), c0, c1);
  }

  lemma BazKeys()
    ensures "baz__gt" == MakeKey("baz", Symbol(GreaterThan))
    ensures "baz__lt" == MakeKey("baz", Symbol(LessThan))
  {
  }

  /** A key made from a safe variable and an operator parses into that check. */
  lemma ParseMadeKey(variable: string, op: Operator, key: string, v: Value)
    requires KeySafe(variable) && key == MakeKey(variable, Symbol(op))
    ensures FromKey(key, v) == Ok(Check(variable, v, op))
  {
    MakeKeyThenParseKey(variable, op);
  }

  /** Two keyword arguments that each parse give the two checks, in order. */
  lemma ParsePair(kw0: (string, Value), kw1: (string, Value), c0: Check, c1: Check)
    requires FromKey(kw0.0, kw0.1) == Ok(c0) && FromKey(kw1.0, kw1.1) == Ok(c1)
    ensures ParseAll([kw0, kw1]) == Ok([c0, c1])
  {
    assert [kw1][1..] == [];
    assert ParseAll([]) == Ok([]);
    assert [c1] + [] == [c1];
    assert ParseAll([kw1]) == Ok([c1]);
    assert [c0] + [c1] == [c0, c1];
    assert [kw0, kw1][1..] == [kw1];
  }

  /** Two checks on one variable form one group, in order. */
  lemma GroupOneVariable(c0: Check, c1: Check)
    requires c0.variable == c1.variable
    ensures Group([c0]) == [(c0.variable, [c0])]
    ensures Group([c0, c1]) == [(c0.variable, [c0, c1])]
  {
    var g1: Dicts.Dict<seq<Check>> := [(c0.variable, [c0])];
    assert Group([c0]) == g1 by {
      GroupAppend([], c0);
      AppendFresh([], c0);
      assert [] + [c0] == [c0];
    }
    GroupAppend([c0], c1);
    assert [] + g1 == g1;
    AppendLast([], [c0], c1);
    assert [c0] + [c1] == [c0, c1];
  }

  /** Two stored checks with the same variable and operator collapse into one: both
    * are written under the same keyword, and the later value wins. */
  lemma {:induction false} LaterDuplicateWins(c1: Check, c2: Check)
    requires c1.variable == c2.variable && c1.operator == c2.operator && KeyFaithful(c2)
    ensures FromDict(JObj([(c2.variable, JArr([Checks.ToDict(c1), Checks.ToDict(c2)]))]))
      == Ok(Condition([(c2.variable, [c2])]))
  {
    var key := KeyOf(c2);
    var stored := [Checks.ToDict(c1), Checks.ToDict(c2)];
    OverwriteKwarg(c1, c2, stored);
    OneGroupKwargs(c2.variable, stored, [(key, c2.value)]);
    ParseFaithful(c2);
    BuildOfParsed([(key, c2.value)], [c2]);
    GroupOneVariable(c2, c2);
    FromDictOfKwargs([(c2.variable, JArr(stored))], [(key, c2.value)], Condition([(c2.variable, [c2])]));
  }

  lemma FromDictOfKwargs(groups: Dicts.Dict<Json>, kwargs: Dicts.Dict<Value>, c: Condition)
    requires AddAllKwargs([], groups) == Ok(kwargs) && Build(kwargs) == Ok(c)
    ensures FromDict(JObj(groups)) == Ok(c)
  {
  }

  lemma OneGroupKwargs(v: string, stored: seq<Json>, d: Dicts.Dict<Value>)
    requires AddKwargs([], stored) == Ok(d)
    ensures AddAllKwargs([], [(v, JArr(stored))]) == Ok(d)
  {
    assert [(v, JArr(stored))][1..] == [];
  }

  /** The second of two checks written under one keyword overwrites the first. */
  lemma OverwriteKwarg(c1: Check, c2: Check, stored: seq<Json>)
    requires KeyOf(c1) == KeyOf(c2) && stored == [Checks.ToDict(c1), Checks.ToDict(c2)]
    ensures AddKwargs([], stored) == Ok([(KeyOf(c2), c2.value)])
  {
    var d1 := [(KeyOf(c1), c1.value)];
    AddKwargOfCheck([], c1);
    AddKwargOfCheck(d1, c2);
    assert Dicts.Put(d1, KeyOf(c2), c2.value) == [(KeyOf(c2), c2.value)] by {
      assert d1[1..] == [];
    }
    AddTwoKwargs(stored[0], stored[1], d1, [(KeyOf(c2), c2.value)]);
    assert stored == [stored[0], stored[1]];
  }

  lemma AddTwoKwargs(j1: Json, j2: Json, d1: Dicts.Dict<Value>, d2: Dicts.Dict<Value>)
    requires AddKwarg([], j1) == Ok(d1) && AddKwarg(d1, j2) == Ok(d2)
    ensures AddKwargs([], [j1, j2]) == Ok(d2)
  {
    assert [j2][1..] == [];
    assert AddKwargs(d2, []) == Ok(d2);
    assert AddKwargs(d1, [j2]) == Ok(d2);
    assert [j1, j2][1..] == [j2];
  }

  /** A faithful check is what its own keyword argument parses into. */
  lemma ParseFaithful(c: Check)
    requires KeyFaithful(c)
    ensures ParseAll([(KeyOf(c), c.value)]) == Ok([c])
  {
    assert [(KeyOf(c), c.value)][1..] == [];
    assert ParseAll([]) == Ok([]);
    assert [c] + [] == [c];
  }

  /** `x__gt=1` followed by `x__gt=2` in the stored form rebuilds as `x__gt=2`. */
  lemma SameKeyCollapses()
    ensures FromDict(JObj([("x", JArr([Checks.ToDict(Check("x", VInt(1), GreaterThan)),
                                      Checks.ToDict(Check("x", VInt(2), GreaterThan))]))]))
      == Ok(Condition([("x", [Check("x", VInt(2), GreaterThan)])]))
  {
    SafeVariables();
    MakeKeyThenParseKey("x", GreaterThan);
    LaterDuplicateWins(Check("x", VInt(1), GreaterThan), Check("x", VInt(2), GreaterThan));
  }
}
