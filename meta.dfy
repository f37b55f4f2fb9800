/** The metadata stored with a flag: its creation time, free-form client data, its
  * conditions and its bucketer, with the dictionary form the stores keep. */
module Meta {
  import opened Wrappers
  import opened Values
  import Dicts
  import Conditions
  import Bucketers

  datatype Meta = Meta(createdDate: int, clientData: Json, conditions: seq<Conditions.Condition>,
                       bucketer: Bucketers.Bucketer)

  /** Every meta the constructor makes holds either truthy client data or `{}`. */
  predicate Normal(m: Meta) {
    Truthy(m.clientData) || m.clientData == JObj([])
  }

  /** The constructor: `client_data or {}`, `conditions or []` and `bucketer or
    * NoOpBucketer()`. An absent client data is None (`JNull`), which is falsy; an
    * absent bucketer is `None`. */
  function New(createdDate: int, clientData: Json, conditions: seq<Conditions.Condition>,
               bucketer: Option<Bucketers.Bucketer>): (m: Meta)
    ensures Normal(m)
    ensures m.createdDate == createdDate && m.conditions == conditions
    ensures Truthy(clientData) ==> m.clientData == clientData
    ensures !Truthy(clientData) ==> m.clientData == JObj([])
    ensures bucketer.Some? ==> m.bucketer == bucketer.value
    ensures bucketer.None? ==> m.bucketer.NoOp?
  {
    Meta(createdDate, if Truthy(clientData) then clientData else JObj([]), conditions,
         if bucketer.Some? then bucketer.value else Bucketers.NoOp)
  }

  /** With nothing but a creation time, the client data is `{}`, there are no
    * conditions and the bucketer admits everyone. */
  lemma Defaults(createdDate: int)
    ensures New(createdDate, JNull, [], None) == Meta(createdDate, JObj([]), [], Bucketers.NoOp)
  {
  }

  function ConditionsToJson(cs: seq<Conditions.Condition>): (js: seq<Json>)
    ensures |js| == |cs| && forall i :: 0 <= i < |cs| ==> js[i] == Conditions.ToDict(cs[i])
  {
    if |cs| == 0 then [] else [Conditions.ToDict(cs[0])] + ConditionsToJson(cs[1..])
  }

  const Fields: seq<string> := ["client_data", "created_date", "conditions", "bucketer"]

  /** `to_dict`: exactly the four fields, each condition and the bucketer in their
    * own dictionary form. */
  function ToDict(m: Meta): (j: Json)
    ensures j.JObj? && Dicts.Keys(j.fields) == Fields
    ensures |j.fields| == 4 && j.fields[0].1 == m.clientData && j.fields[1].1 == JInt(m.createdDate)
    ensures j.fields[2].1 == JArr(ConditionsToJson(m.conditions)) && j.fields[3].1 == Bucketers.ToDict(m.bucketer)
  {
    JObj([("client_data", m.clientData), ("created_date", JInt(m.createdDate)),
          ("conditions", JArr(ConditionsToJson(m.conditions))), ("bucketer", Bucketers.ToDict(m.bucketer))])
  }

  /** Each stored condition in turn; the first that cannot be read stops the list. */
  function ConditionsFromJson(items: seq<Json>): (r: Result<seq<Conditions.Condition>>)
    ensures r.Ok? ==> |r.value| == |items|
    decreases |items|
  {
    if |items| == 0 then Ok([])
    else
      var c :- Conditions.FromDict(items[0]);
      var rest :- ConditionsFromJson(items[1..]);
      Ok([c] + rest)
  }

  /** `[Condition.from_dict(c) for c in fields.get("conditions", [])]`: a list is
    * read element by element; iterating a dictionary or a string yields strings,
    * which are not conditions; anything else cannot be iterated. */
  function ConditionsField(fields: Dicts.Dict<Json>): Result<seq<Conditions.Condition>> {
    match Dicts.Get(fields, "conditions")
    case None => Ok([])
    case Some(j) =>
      match j
      case JArr(items) => ConditionsFromJson(items)
      case JObj(entries) => if |entries| == 0 then Ok([]) else Err(AttributeError)
      case JStr(s) => if |s| == 0 then Ok([]) else Err(AttributeError)
      case _ => Err(TypeError)
  }

  /** `fields.get("bucketer")`: None leaves the default; a dictionary goes through
    * the bucketer factory; anything else cannot be indexed by "type". */
  function BucketerField(fields: Dicts.Dict<Json>, now: int): Result<Option<Bucketers.Bucketer>> {
    match Dicts.Get(fields, "bucketer")
    case None => Ok(None)
    case Some(j) =>
      match j
      case JNull => Ok(None)
      case JObj(f) =>
        var b :- Bucketers.Create(f, now);
        Ok(Some(b))
      case _ => Err(TypeError)
  }

  /** `fields["created_date"]`; creation times other than integers are not modelled. */
  function CreatedDateField(fields: Dicts.Dict<Json>): Result<int> {
    var t :- Require(fields, "created_date");
    if t.JInt? then Ok(t.i) else Err(Unsupported)
  }

  /** `fields.get("client_data", [])`: the default is an empty list, which the
    * constructor then replaces by `{}`. */
  function ClientDataField(fields: Dicts.Dict<Json>): Json {
    match Dicts.Get(fields, "client_data")
    case None => JArr([])
    case Some(j) => j
  }

  /** `FeatureFlagStoreMeta.from_dict`: conditions are read first, then the
    * bucketer, then the creation time. `now` is the clock a linear ramp without a
    * start time reads. */
  function FromDict(j: Json, now: int): (r: Result<Meta>)
    ensures !j.JObj? ==> r == Err(AttributeError)
    ensures r.Ok? ==> Dicts.Get(j.fields, "created_date") == Some(JInt(r.value.createdDate))
    ensures r.Ok? ==> Normal(r.value)
  {
    match j
    case JObj(fields) =>
      var conditions :- ConditionsField(fields);
      var bucketer :- BucketerField(fields, now);
      var createdDate :- CreatedDateField(fields);
      Ok(New(createdDate, ClientDataField(fields), conditions, bucketer))
    case _ => Err(AttributeError)
  }

  /** The metas the dictionary form reproduces: normal ones, with canonical
    * conditions and a whitelist free of repeats. */
  predicate Storable(m: Meta) {
    && Normal(m)
    && (forall i :: 0 <= i < |m.conditions| ==> Conditions.Canonical(m.conditions[i]))
    && (m.bucketer.ConsistentHash? ==> Bucketers.DistinctNames(m.bucketer.whitelist))
  }

  /** Every storable meta survives a trip through its dictionary form. */
  lemma DictRoundTrip(m: Meta, now: int)
    requires Storable(m)
    ensures FromDict(ToDict(m), now) == Ok(m)
  {
    var f := ToDict(m).fields;
    FieldsDistinct(f);
    Dicts.GetDistinct(f, "client_data", 0);
    Dicts.GetDistinct(f, "conditions", 2);
    ConditionsAt(f, m.conditions);
    BucketerAt(f, m.bucketer, now);
    CreatedDateAt(f, m.createdDate);
  }

  lemma FieldsDistinct(f: Dicts.Dict<Json>)
    requires Dicts.Keys(f) == Fields
    ensures Dicts.DistinctKeys(f)
  {
    assert Fields[0][1] != Fields[1][1] && Fields[0][1] != Fields[2][1] && Fields[1][1] != Fields[2][1];
    assert Fields[3][0] != Fields[0][0] && Fields[3][0] != Fields[1][0] && Fields[3][0] != Fields[2][0];
  }

  lemma ConditionsAt(f: Dicts.Dict<Json>, cs: seq<Conditions.Condition>)
    requires Dicts.Get(f, "conditions") == Some(JArr(ConditionsToJson(cs)))
    requires forall i :: 0 <= i < |cs| ==> Conditions.Canonical(cs[i])
    ensures ConditionsField(f) == Ok(cs)
  {
    ConditionsRoundTrip(cs);
  }

  lemma BucketerAt(f: Dicts.Dict<Json>, b: Bucketers.Bucketer, now: int)
    requires Dicts.DistinctKeys(f) && |f| == 4 && f[3] == ("bucketer", Bucketers.ToDict(b))
    requires b.ConsistentHash? ==> Bucketers.DistinctNames(b.whitelist)
    ensures BucketerField(f, now) == Ok(Some(b))
  {
    Dicts.GetDistinct(f, "bucketer", 3);
    Bucketers.CreateRoundTrip(b, now);
  }

  lemma CreatedDateAt(f: Dicts.Dict<Json>, t: int)
    requires Dicts.DistinctKeys(f) && |f| == 4 && f[1] == ("created_date", JInt(t))
    ensures CreatedDateField(f) == Ok(t)
  {
    Dicts.GetDistinct(f, "created_date", 1);
  }

  lemma {:induction false} ConditionsRoundTrip(cs: seq<Conditions.Condition>)
    requires forall i :: 0 <= i < |cs| ==> Conditions.Canonical(cs[i])
    ensures ConditionsFromJson(ConditionsToJson(cs)) == Ok(cs)
    decreases |cs|
  {
    if |cs| > 0 {
      Conditions.DictRoundTrip(cs[0]);
      ConditionsRoundTrip(cs[1..]);
      assert ConditionsToJson(cs)[1..] == ConditionsToJson(cs[1..]);
      assert cs == [cs[0]] + cs[1..];
    }
  }

  /** What `from_dict` fills in: missing client data becomes `{}` (the `[]`
    * default is falsy), missing conditions none, a missing bucketer the no-op one,
    * and a missing creation time raises KeyError. */
  lemma FromDictDefaults(t: int, now: int)
    ensures FromDict(JObj([("created_date", JInt(t))]), now) == Ok(Meta(t, JObj([]), [], Bucketers.NoOp))
    ensures FromDict(JObj([]), now) == Err(KeyError)
  {
    var f: Dicts.Dict<Json> := [("created_date", JInt(t))];
    assert Dicts.Get(f, "conditions") == None;
    assert Dicts.Get(f, "bucketer") == None;
    assert Dicts.Get(f, "client_data") == None;
  }

  // `update` and `_merge_client_data`, which change a meta in place.

  /** The new state of a meta after `update(created_date, client_data, conditions,
    * bucketer)`, where None leaves a field alone, and the outcome. The creation
    * time is written before the client data is merged, so a merge into client
    * data that is not a dictionary fails with AttributeError after the creation
    * time has changed. */
  function Updated(m: Meta, createdDate: Option<int>, clientData: Option<Dicts.Dict<Json>>,
                   conditions: Option<seq<Conditions.Condition>>, bucketer: Option<Bucketers.Bucketer>): (Outcome, Meta)
  {
    var m1 := if createdDate.Some? then m.(createdDate := createdDate.value) else m;
    if clientData.Some? && !m1.clientData.JObj? then (Fail(AttributeError), m1)
    else
      var m2 := if clientData.Some? then m1.(clientData := JObj(Dicts.Update(m1.clientData.fields, clientData.value))) else m1;
      var m3 := if conditions.Some? then m2.(conditions := conditions.value) else m2;
      var m4 := if bucketer.Some? then m3.(bucketer := bucketer.value) else m3;
      (Pass, m4)
  }

  /** A meta updated in place. */
  class MutableMeta {
    var createdDate: int
    var clientData: Json
    var conditions: seq<Conditions.Condition>
    var bucketer: Bucketers.Bucketer

    function Value(): Meta
      reads this
    {
      Meta(createdDate, clientData, conditions, bucketer)
    }

    constructor (m: Meta)
      ensures Value() == m
    {
      createdDate := m.createdDate;
      clientData := m.clientData;
      conditions := m.conditions;
      bucketer := m.bucketer;
    }

    /** `_merge_client_data`: `client_data.update(d)`, which only a dictionary has. */
    method MergeClientData(d: Dicts.Dict<Json>) returns (r: Outcome)
      modifies this
      ensures clientData.JObj? <==> r.Pass?
      ensures old(clientData).JObj? ==> clientData == JObj(Dicts.Update(old(clientData).fields, d))
      ensures !old(clientData).JObj? ==> r == Fail(AttributeError) && clientData == old(clientData)
      ensures createdDate == old(createdDate) && conditions == old(conditions) && bucketer == old(bucketer)
    {
      if clientData.JObj? {
        clientData := JObj(Dicts.Update(clientData.fields, d));
        r := Pass;
      } else {
        r := Fail(AttributeError);
      }
    }

    /** `update`. */
    method Update(createdDate': Option<int>, clientData': Option<Dicts.Dict<Json>>,
                  conditions': Option<seq<Conditions.Condition>>, bucketer': Option<Bucketers.Bucketer>)
      returns (r: Outcome)
      modifies this
      ensures (r, Value()) == Updated(old(Value()), createdDate', clientData', conditions', bucketer')
    {
      if createdDate'.Some? {
        createdDate := createdDate'.value;
      }
      if clientData'.Some? {
        r := MergeClientData(clientData'.value);
        if r.Fail? {
          return;
        }
      }
      if conditions'.Some? {
        conditions := conditions'.value;
      }
      if bucketer'.Some? {
        bucketer := bucketer'.value;
      }
      r := Pass;
    }
  }

  // What `update` promises.

  /** Merging client data: every key of `d` takes its value in `d`, and every other
    * key keeps the value it had. */
  lemma MergeSemantics(m: Meta, d: Dicts.Dict<Json>, k: string)
    requires m.clientData.JObj? && Dicts.DistinctKeys(d)
    ensures Updated(m, None, Some(d), None, None).0 == Pass
    ensures var after := Updated(m, None, Some(d), None, None).1.clientData;
            after.JObj? &&
            Dicts.Get(after.fields, k) == if k in Dicts.Keys(d) then Dicts.Get(d, k) else Dicts.Get(m.clientData.fields, k)
  {
    Dicts.UpdateGet(m.clientData.fields, d, k);
  }

  /** Arguments left out leave their fields unchanged; an update with none of them
    * changes nothing. */
  lemma UpdateNothing(m: Meta)
    ensures Updated(m, None, None, None, None) == (Pass, m)
  {
  }

  /** Updating the creation time touches nothing else. */
  lemma UpdateCreatedDateOnly(m: Meta, t: int)
    ensures Updated(m, Some(t), None, None, None) == (Pass, m.(createdDate := t))
  {
  }

  /** New conditions replace the old list wholesale, and a new bucketer the old
    * one; everything else is kept. */
  lemma UpdateReplaces(m: Meta, cs: seq<Conditions.Condition>, b: Bucketers.Bucketer)
    ensures Updated(m, None, None, Some(cs), None) == (Pass, m.(conditions := cs))
    ensures Updated(m, None, None, None, Some(b)) == (Pass, m.(bucketer := b))
  {
  }

  /** Client data that is not a dictionary cannot be merged into; the creation
    * time given with it has already been written. */
  lemma MergeIntoNonDictionary(m: Meta, t: int, d: Dicts.Dict<Json>)
    requires !m.clientData.JObj?
    ensures Updated(m, Some(t), Some(d), None, None) == (Fail(AttributeError), m.(createdDate := t))
  {
  }

  /** Merging `{"b": 2}` into `{"a": 1}` keeps `a` and adds `b`; merging `{"a": 3}`
    * overwrites `a`. */
  lemma MergeExamples()
    ensures Updated(Meta(0, JObj([("a", JInt(1))]), [], Bucketers.NoOp), None, Some([("b", JInt(2))]), None, None).1.clientData
      == JObj([("a", JInt(1)), ("b", JInt(2))])
    ensures Updated(Meta(0, JObj([("a", JInt(1))]), [], Bucketers.NoOp), None, Some([("a", JInt(3))]), None, None).1.clientData
      == JObj([("a", JInt(3))])
  {
    assert Dicts.Put([("a", JInt(1))], "b", JInt(2)) == [("a", JInt(1)), ("b", JInt(2))];
  }
}
