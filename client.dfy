/** The flag client over the in-memory store. Every mutator first requires the flag
  * to exist, raising FlagDoesNotExistError before the store is touched. The
  * mutators of the metadata read it back from its dictionary form, change it and
  * write it back with `set_meta`. Events are not modelled. */
module Client {
  import opened Wrappers
  import opened Values
  import Dicts
  import Conditions
  import Bucketers
  import Meta
  import Item
  import Memory

  type Table = Memory.Table

  /** `exists`: the store has an item under the name. */
  predicate Present(t: Table, name: string) {
    name in Dicts.Keys(t)
  }

  // The answer and the table after each client operation; the methods of
  // FeatureFlagClient are proved to produce exactly these.

  /** `is_enabled(name, default, **attrs)`: the default for a missing flag,
    * otherwise the item's own answer; evaluating the conditions records, in the
    * stored item, the attribute names they read. */
  function Checked(t: Table, name: string, default: bool, attrs: Dicts.Dict<Value>,
                   draw: real, hash: Bucketers.Hash, now: int): (r: (Result<bool>, Table))
    requires Dicts.DistinctKeys(attrs)
    ensures !Present(t, name) ==> r == (Ok(default), t)
    ensures Present(t, name) ==> r.0 == Item.IsEnabled(Dicts.Get(t, name).value, attrs, draw, hash, now)
    ensures forall other :: other != name ==> Dicts.Get(r.1, other) == Dicts.Get(t, other)
  {
    match Dicts.Get(t, name)
    case None => (Ok(default), t)
    case Some(i) =>
      Dicts.PutGet(t, name, Item.AfterIsEnabled(i, attrs));
      (Item.IsEnabled(i, attrs, draw, hash, now), Dicts.Put(t, name, Item.AfterIsEnabled(i, attrs)))
  }

  /** `enable` and `disable`: the store's `set` behind the existence guard. */
  function Switched(t: Table, name: string, enabled: bool, now: int): (Outcome, Table) {
    if !Present(t, name) then (Fail(FlagDoesNotExist), t) else Memory.AfterSet(t, name, enabled, now)
  }

  /** `destroy`. */
  function Destroyed(t: Table, name: string): (Outcome, Table) {
    if !Present(t, name) then (Fail(FlagDoesNotExist), t) else (Pass, Dicts.Remove(t, name))
  }

  /** `get_meta`: the dictionary form of the stored meta. */
  function MetaOf(t: Table, name: string): Result<Json> {
    match Dicts.Get(t, name)
    case None => Err(FlagDoesNotExist)
    case Some(i) => Ok(Meta.ToDict(i.meta))
  }

  /** `get_client_data`: the "client_data" entry of `get_meta`. */
  function ClientDataOf(t: Table, name: string): Result<Json> {
    var j :- MetaOf(t, name);
    match j
    case JObj(fields) => Require(fields, "client_data")
    case _ => Err(TypeError)
  }

  /** `FeatureFlagStoreMeta.from_dict(self.get_meta(name))`, which every meta
    * mutator starts with. */
  function Reread(t: Table, name: string, now: int): Result<Meta.Meta> {
    var j :- MetaOf(t, name);
    Meta.FromDict(j, now)
  }

  /** `add_condition`. */
  function WithCondition(t: Table, name: string, c: Conditions.Condition, now: int): (Outcome, Table) {
    match Reread(t, name, now)
    case Err(e) => (Fail(e), t)
    case Ok(m) => Memory.AfterSetMeta(t, name, m.(conditions := m.conditions + [c]))
  }

  /** `set_conditions`. */
  function WithConditions(t: Table, name: string, cs: seq<Conditions.Condition>, now: int): (Outcome, Table) {
    match Reread(t, name, now)
    case Err(e) => (Fail(e), t)
    case Ok(m) => Memory.AfterSetMeta(t, name, m.(conditions := cs))
  }

  /** `set_client_data`: a merge, which fails on client data that is not a
    * dictionary. */
  function WithClientData(t: Table, name: string, d: Dicts.Dict<Json>, now: int): (Outcome, Table) {
    match Reread(t, name, now)
    case Err(e) => (Fail(e), t)
    case Ok(m) =>
      var u := Meta.Updated(m, None, Some(d), None, None);
      if u.0.Fail? then (u.0, t) else Memory.AfterSetMeta(t, name, u.1)
  }

  /** `set_bucketer`. */
  function WithBucketer(t: Table, name: string, b: Bucketers.Bucketer, now: int): (Outcome, Table) {
    match Reread(t, name, now)
    case Err(e) => (Fail(e), t)
    case Ok(m) => Memory.AfterSetMeta(t, name, Meta.Updated(m, None, None, None, Some(b)).1)
  }

  class FeatureFlagClient {
    const store: Memory.MemoryStore

    constructor (store: Memory.MemoryStore)
      ensures this.store == store
    {
      this.store := store;
    }

    predicate Valid()
      reads this, store
    {
      store.Valid()
    }

    /** `create`: returns the name of the new flag, whose handle `get` gives. */
    method Create(name: string, enabled: bool, clientData: Json, now: int) returns (flag: string)
      requires Valid()
      modifies store
      ensures Valid()
      ensures flag == name
      ensures store.memory == Memory.Created(old(store.memory), name, enabled, clientData, now)
    {
      var _ := store.Create(name, enabled, clientData, now);
      flag := name;
    }

    /** `exists`. */
    function Exists(name: string): (r: bool)
      reads this, store
      ensures r <==> Present(store.memory, name)
    {
      store.Get(name).Some?
    }

    /** `is_enabled`. */
    method IsEnabled(name: string, default: bool, attrs: Dicts.Dict<Value>, draw: real, hash: Bucketers.Hash, now: int)
      returns (r: Result<bool>)
      requires Valid() && Dicts.DistinctKeys(attrs)
      modifies store
      ensures Valid()
      ensures (r, store.memory) == Checked(old(store.memory), name, default, attrs, draw, hash, now)
    {
      var item := store.Get(name);
      if item.None? {
        return Ok(default);
      }
      var after;
      r, after := Item.Evaluate(item.value, attrs, draw, hash, now);
      AfterKeepsName(item.value, attrs);
      store.Save(after);
    }

    /** `list`: the names of the listed flags, in order. */
    method List(limit: Option<int>, offset: int) returns (flags: seq<string>)
      requires Valid()
      ensures flags == Memory.ListedNames(store.memory, limit, offset)
    {
      var items := store.List(limit, offset);
      ghost var listed := Memory.ListedNames(store.memory, limit, offset);
      Memory.ListedItemsNamed(store.memory, limit, offset, items);
      flags := [];
      for i := 0 to |items|
        invariant flags == listed[..i]
      {
        NamesSnoc(listed, flags, items[i].name);
        flags := flags + [items[i].name];
      }
      assert listed[..|items|] == listed;
    }

    /** The shared body of `enable` and `disable`. */
    method Switch(name: string, enabled: bool, now: int) returns (r: Outcome)
      requires Valid()
      modifies store
      ensures Valid()
      ensures (r, store.memory) == Switched(old(store.memory), name, enabled, now)
    {
      if !Exists(name) {
        return Fail(FlagDoesNotExist);
      }
      r := store.Set(name, enabled, now);
    }

    /** `enable`. */
    method Enable(name: string, now: int) returns (r: Outcome)
      requires Valid()
      modifies store
      ensures Valid()
      ensures (r, store.memory) == Switched(old(store.memory), name, true, now)
    {
      r := Switch(name, true, now);
    }

    /** `disable`. */
    method Disable(name: string, now: int) returns (r: Outcome)
      requires Valid()
      modifies store
      ensures Valid()
      ensures (r, store.memory) == Switched(old(store.memory), name, false, now)
    {
      r := Switch(name, false, now);
    }

    /** `destroy`. */
    method Destroy(name: string) returns (r: Outcome)
      requires Valid()
      modifies store
      ensures Valid()
      ensures (r, store.memory) == Destroyed(old(store.memory), name)
    {
      if !Exists(name) {
        return Fail(FlagDoesNotExist);
      }
      store.Delete(name);
      r := Pass;
    }

    /** `get_meta`. */
    function GetMeta(name: string): (r: Result<Json>)
      reads this, store
      ensures r == Err(FlagDoesNotExist) <==> !Present(store.memory, name)
      ensures r.Ok? ==> r.value.JObj? && Dicts.Keys(r.value.fields) == Meta.Fields
    {
      MetaOf(store.memory, name)
    }

    /** `get_client_data`. */
    function GetClientData(name: string): (r: Result<Json>)
      reads this, store
      ensures r == Err(FlagDoesNotExist) <==> !Present(store.memory, name)
      ensures r.Ok? ==> r.value == store.Get(name).value.meta.clientData
    {
      ClientDataOfStored(store.memory, name);
      ClientDataOf(store.memory, name)
    }

    /** `add_condition`: the meta is read back, the condition appended to its
      * list, and the meta written back. */
    method AddCondition(name: string, c: Conditions.Condition, now: int) returns (r: Outcome)
      requires Valid()
      modifies store
      ensures Valid()
      ensures (r, store.memory) == WithCondition(old(store.memory), name, c, now)
    {
      if !Exists(name) {
        return Fail(FlagDoesNotExist);
      }
      var m := Meta.FromDict(GetMeta(name).value, now);
      if m.Err? {
        return Fail(m.error);
      }
      var meta := new Meta.MutableMeta(m.value);
      meta.conditions := meta.conditions + [c];
      r := store.SetMeta(name, meta.Value());
    }

    /** `set_client_data`. */
    method SetClientData(name: string, d: Dicts.Dict<Json>, now: int) returns (r: Outcome)
      requires Valid()
      modifies store
      ensures Valid()
      ensures (r, store.memory) == WithClientData(old(store.memory), name, d, now)
    {
      if !Exists(name) {
        return Fail(FlagDoesNotExist);
      }
      var m := Meta.FromDict(GetMeta(name).value, now);
      if m.Err? {
        return Fail(m.error);
      }
      var meta := new Meta.MutableMeta(m.value);
      r := meta.Update(None, Some(d), None, None);
      if r.Fail? {
        return;
      }
      r := store.SetMeta(name, meta.Value());
    }

    /** `set_bucketer`. */
    method SetBucketer(name: string, b: Bucketers.Bucketer, now: int) returns (r: Outcome)
      requires Valid()
      modifies store
      ensures Valid()
      ensures (r, store.memory) == WithBucketer(old(store.memory), name, b, now)
    {
      if !Exists(name) {
        return Fail(FlagDoesNotExist);
      }
      var m := Meta.FromDict(GetMeta(name).value, now);
      if m.Err? {
        return Fail(m.error);
      }
      var meta := new Meta.MutableMeta(m.value);
      var _ := meta.Update(None, None, None, Some(b));
      r := store.SetMeta(name, meta.Value());
    }

    /** `set_conditions`: the whole list is replaced. */
    method SetConditions(name: string, cs: seq<Conditions.Condition>, now: int) returns (r: Outcome)
      requires Valid()
      modifies store
      ensures Valid()
      ensures (r, store.memory) == WithConditions(old(store.memory), name, cs, now)
    {
      if !Exists(name) {
        return Fail(FlagDoesNotExist);
      }
      var m := Meta.FromDict(GetMeta(name).value, now);
      if m.Err? {
        return Fail(m.error);
      }
      var meta := new Meta.MutableMeta(m.value);
      meta.conditions := cs;
      r := store.SetMeta(name, meta.Value());
    }
  }

  // Helpers.

  /** One more listed name extends the prefix listed so far. */
  lemma NamesSnoc(listed: seq<string>, flags: seq<string>, x: string)
    requires |flags| < |listed| && flags == listed[..|flags|] && x == listed[|flags|]
    ensures flags + [x] == listed[..|flags| + 1]
  {
  }

  lemma AfterKeepsName(i: Item.Item, attrs: Dicts.Dict<Value>)
    ensures Item.AfterIsEnabled(i, attrs).name == i.name
  {
  }

  lemma ClientDataOfStored(t: Table, name: string)
    ensures ClientDataOf(t, name) == Err(FlagDoesNotExist) <==> !Present(t, name)
    ensures ClientDataOf(t, name).Ok? ==> ClientDataOf(t, name).value == Dicts.Get(t, name).value.meta.clientData
  {
    if Present(t, name) {
      var f := Meta.ToDict(Dicts.Get(t, name).value.meta).fields;
      Dicts.GetFirst(f, "client_data", 0);
    }
  }

  /** A stored item whose meta is storable: what the meta mutators read back is
    * that meta. */
  lemma RereadStored(t: Table, name: string, now: int)
    requires Present(t, name) && Meta.Storable(Dicts.Get(t, name).value.meta)
    ensures Reread(t, name, now) == Ok(Dicts.Get(t, name).value.meta)
  {
    Meta.DictRoundTrip(Dicts.Get(t, name).value.meta, now);
  }

  // What the client promises.

  /** A missing flag: `is_enabled` answers the default and every mutator and
    * `get_meta` raise FlagDoesNotExistError, changing nothing. */
  lemma MissingFlag(t: Table, name: string, default: bool, attrs: Dicts.Dict<Value>, draw: real,
                    hash: Bucketers.Hash, now: int, enabled: bool, c: Conditions.Condition,
                    cs: seq<Conditions.Condition>, d: Dicts.Dict<Json>, b: Bucketers.Bucketer)
    requires !Present(t, name) && Dicts.DistinctKeys(attrs)
    ensures Checked(t, name, default, attrs, draw, hash, now) == (Ok(default), t)
    ensures Switched(t, name, enabled, now) == (Fail(FlagDoesNotExist), t)
    ensures Destroyed(t, name) == (Fail(FlagDoesNotExist), t)
    ensures MetaOf(t, name) == Err(FlagDoesNotExist)
    ensures ClientDataOf(t, name) == Err(FlagDoesNotExist)
    ensures WithCondition(t, name, c, now) == (Fail(FlagDoesNotExist), t)
    ensures WithConditions(t, name, cs, now) == (Fail(FlagDoesNotExist), t)
    ensures WithClientData(t, name, d, now) == (Fail(FlagDoesNotExist), t)
    ensures WithBucketer(t, name, b, now) == (Fail(FlagDoesNotExist), t)
  {
  }

  /** A present flag answers what its item's rule answers, and the evaluation
    * changes no later answer for that flag, nor anything stored under another
    * name. */
  lemma CheckedDelegates(t: Table, name: string, default: bool, attrs: Dicts.Dict<Value>, other: Dicts.Dict<Value>,
                         draw: real, hash: Bucketers.Hash, now: int)
    requires Present(t, name) && Dicts.DistinctKeys(attrs) && Dicts.DistinctKeys(other)
    ensures Checked(t, name, default, attrs, draw, hash, now).0 == Item.IsEnabled(Dicts.Get(t, name).value, attrs, draw, hash, now)
    ensures Checked(Checked(t, name, default, attrs, draw, hash, now).1, name, default, other, draw, hash, now).0
         == Checked(t, name, default, other, draw, hash, now).0
    ensures forall k :: k != name ==> Dicts.Get(Checked(t, name, default, attrs, draw, hash, now).1, k) == Dicts.Get(t, k)
  {
    var i := Dicts.Get(t, name).value;
    Dicts.PutGet(t, name, Item.AfterIsEnabled(i, attrs));
    Item.IsEnabledAgain(i, attrs, other, draw, hash, now);
  }

  /** `create` makes a flag that exists; created disabled, which is the default,
    * it is off for everyone. */
  lemma CreatedDisabledIsOff(t: Table, name: string, clientData: Json, now: int, default: bool,
                             attrs: Dicts.Dict<Value>, draw: real, hash: Bucketers.Hash)
    requires Dicts.DistinctKeys(attrs)
    ensures Present(Memory.Created(t, name, false, clientData, now), name)
    ensures Checked(Memory.Created(t, name, false, clientData, now), name, default, attrs, draw, hash, now).0 == Ok(false)
  {
    Memory.CreateThenGet(t, name, false, clientData, now);
  }

  /** A created flag's meta is storable. */
  lemma FreshStorable(name: string, enabled: bool, clientData: Json, now: int)
    ensures Meta.Storable(Memory.Fresh(name, enabled, clientData, now).meta)
  {
  }

  /** On a flag with a storable meta, `enable` and `disable` change only the
    * switch, so after either sequence of the two the last call's value holds and
    * the meta is the one stored before. */
  lemma SwitchTwice(t: Table, name: string, first: bool, second: bool, now: int, now': int)
    requires Memory.WellFormed(t) && Present(t, name) && Meta.Storable(Dicts.Get(t, name).value.meta)
    ensures Switched(t, name, first, now) == (Pass, Dicts.Put(t, name, Dicts.Get(t, name).value.(enabled := first)))
    ensures var t1 := Switched(t, name, first, now).1;
      Switched(t1, name, second, now') == (Pass, Dicts.Put(t, name, Dicts.Get(t, name).value.(enabled := second)))
  {
    var i := Dicts.Get(t, name).value;
    Memory.SetKeepsMeta(t, name, first, now);
    var t1 := Dicts.Put(t, name, i.(enabled := first));
    Memory.OperationsKeepWellFormed(t, name, first, JNull, now, i.meta);
    Dicts.PutKeys(t, name, i.(enabled := first));
    Memory.SetKeepsMeta(t1, name, second, now');
    PutTwice(t, name, i.(enabled := first), i.(enabled := second));
  }

  lemma {:induction false} PutTwice<V>(d: Dicts.Dict<V>, k: string, x: V, y: V)
    ensures Dicts.Put(Dicts.Put(d, k, x), k, y) == Dicts.Put(d, k, y)
  {
    if |d| > 0 && d[0].0 != k {
      PutTwice(d[1..], k, x, y);
    }
  }

  /** `destroy` of a present flag succeeds; afterwards the flag does not exist and
    * `is_enabled` answers the default, which is false unless given. */
  lemma DestroyThenGone(t: Table, name: string, default: bool, attrs: Dicts.Dict<Value>, draw: real,
                        hash: Bucketers.Hash, now: int)
    requires Present(t, name) && Dicts.DistinctKeys(attrs)
    ensures Destroyed(t, name).0 == Pass
    ensures !Present(Destroyed(t, name).1, name)
    ensures Checked(Destroyed(t, name).1, name, default, attrs, draw, hash, now).0 == Ok(default)
    ensures forall k :: k != name ==> Dicts.Get(Destroyed(t, name).1, k) == Dicts.Get(t, k)
  {
    Memory.DeleteThenGet(t, name);
  }

  /** `add_condition` on a flag with a storable meta appends exactly the one
    * condition and changes nothing else of the item. */
  lemma AddConditionAppends(t: Table, name: string, c: Conditions.Condition, now: int)
    requires Memory.WellFormed(t) && Present(t, name) && Meta.Storable(Dicts.Get(t, name).value.meta)
    ensures var i := Dicts.Get(t, name).value;
      WithCondition(t, name, c, now) == (Pass, Dicts.Put(t, name, i.(meta := i.meta.(conditions := i.meta.conditions + [c]))))
  {
    AppendAt(t, name, Dicts.Get(t, name).value, c, now);
  }

  lemma AppendAt(t: Table, name: string, i: Item.Item, c: Conditions.Condition, now: int)
    requires Memory.WellFormed(t) && Dicts.Get(t, name) == Some(i) && Meta.Storable(i.meta)
    ensures WithCondition(t, name, c, now) == (Pass, Dicts.Put(t, name, i.(meta := i.meta.(conditions := i.meta.conditions + [c]))))
  {
    RereadStored(t, name, now);
    Memory.EntryName(t, name, i);
  }

  /** `add_condition` of a canonical condition leaves the flag well formed and its
    * meta storable, holding one more condition; so AddConditionAppends applies
    * again, and adding the same condition twice gives two copies of it. */
  lemma AddConditionAgain(t: Table, name: string, c: Conditions.Condition, now: int)
    requires Memory.WellFormed(t) && Present(t, name) && Meta.Storable(Dicts.Get(t, name).value.meta)
    requires Conditions.Canonical(c)
    ensures var i := Dicts.Get(t, name).value;
      var t1 := WithCondition(t, name, c, now).1;
      Memory.WellFormed(t1) && Present(t1, name) &&
      Dicts.Get(t1, name) == Some(i.(meta := i.meta.(conditions := i.meta.conditions + [c]))) &&
      Meta.Storable(Dicts.Get(t1, name).value.meta)
  {
    var i := Dicts.Get(t, name).value;
    var i1 := i.(meta := i.meta.(conditions := i.meta.conditions + [c]));
    AppendAt(t, name, i, c, now);
    Memory.EntryName(t, name, i);
    StorableAppend(i.meta, c);
    var t1 := Written(t, name, i1);
  }

  /** Writing an item under its own name over a present one: the table stays well
    * formed and holds the item there. */
  lemma Written(t: Table, name: string, i: Item.Item) returns (t': Table)
    requires Memory.WellFormed(t) && Present(t, name) && i.name == name
    ensures t' == Dicts.Put(t, name, i)
    ensures Memory.WellFormed(t') && Present(t', name) && Dicts.Get(t', name) == Some(i)
  {
    t' := Dicts.Put(t, name, i);
    Memory.PutWellFormed(t, i);
    Dicts.PutGet(t, name, i);
  }

  /** Appending a canonical condition keeps a meta storable. */
  lemma StorableAppend(m: Meta.Meta, c: Conditions.Condition)
    requires Meta.Storable(m) && Conditions.Canonical(c)
    ensures Meta.Storable(m.(conditions := m.conditions + [c]))
  {
    var cs := m.conditions + [c];
    assert forall k :: 0 <= k < |cs| ==> cs[k] == c || cs[k] == m.conditions[k];
  }

  /** `set_conditions` on a flag with a storable meta replaces the whole list and
    * changes nothing else of the item. */
  lemma SetConditionsReplaces(t: Table, name: string, cs: seq<Conditions.Condition>, now: int)
    requires Memory.WellFormed(t) && Present(t, name) && Meta.Storable(Dicts.Get(t, name).value.meta)
    ensures var i := Dicts.Get(t, name).value;
      WithConditions(t, name, cs, now) == (Pass, Dicts.Put(t, name, i.(meta := i.meta.(conditions := cs))))
  {
    RereadStored(t, name, now);
    Memory.EntryName(t, name, Dicts.Get(t, name).value);
  }

  /** `set_bucketer` on a flag with a storable meta replaces the bucketer alone: the
    * switch, the creation time, the client data and the conditions stay. */
  lemma SetBucketerOnly(t: Table, name: string, b: Bucketers.Bucketer, now: int)
    requires Memory.WellFormed(t) && Present(t, name) && Meta.Storable(Dicts.Get(t, name).value.meta)
    ensures var i := Dicts.Get(t, name).value;
      WithBucketer(t, name, b, now) == (Pass, Dicts.Put(t, name, i.(meta := i.meta.(bucketer := b))))
  {
    var i := Dicts.Get(t, name).value;
    RereadStored(t, name, now);
    Memory.EntryName(t, name, i);
    Meta.UpdateReplaces(i.meta, i.meta.conditions, b);
  }

  /** `set_client_data` on a flag with a storable meta whose client data is a
    * dictionary merges the new entries in, new keys winning, and changes nothing
    * else; client data of another kind makes it fail with AttributeError,
    * changing nothing. */
  lemma SetClientDataMerges(t: Table, name: string, d: Dicts.Dict<Json>, now: int, k: string)
    requires Memory.WellFormed(t) && Present(t, name) && Meta.Storable(Dicts.Get(t, name).value.meta)
    requires Dicts.DistinctKeys(d)
    ensures var i := Dicts.Get(t, name).value;
      i.meta.clientData.JObj? ==>
        var merged := JObj(Dicts.Update(i.meta.clientData.fields, d));
        WithClientData(t, name, d, now) == (Pass, Dicts.Put(t, name, i.(meta := i.meta.(clientData := merged)))) &&
        Dicts.Get(merged.fields, k) == if k in Dicts.Keys(d) then Dicts.Get(d, k) else Dicts.Get(i.meta.clientData.fields, k)
    ensures !Dicts.Get(t, name).value.meta.clientData.JObj? ==> WithClientData(t, name, d, now) == (Fail(AttributeError), t)
  {
    var i := Dicts.Get(t, name).value;
    RereadStored(t, name, now);
    Memory.EntryName(t, name, i);
    if i.meta.clientData.JObj? {
      Meta.MergeSemantics(i.meta, d, k);
    }
  }

  /** Every client operation leaves the items under other names as they were. */
  lemma OthersUnchanged(t: Table, name: string, k: string, enabled: bool, c: Conditions.Condition,
                        cs: seq<Conditions.Condition>, d: Dicts.Dict<Json>, b: Bucketers.Bucketer, now: int)
    requires k != name
    ensures Dicts.Get(Switched(t, name, enabled, now).1, k) == Dicts.Get(t, k)
    ensures Dicts.Get(Destroyed(t, name).1, k) == Dicts.Get(t, k)
    ensures Dicts.Get(WithCondition(t, name, c, now).1, k) == Dicts.Get(t, k)
    ensures Dicts.Get(WithConditions(t, name, cs, now).1, k) == Dicts.Get(t, k)
    ensures Dicts.Get(WithClientData(t, name, d, now).1, k) == Dicts.Get(t, k)
    ensures Dicts.Get(WithBucketer(t, name, b, now).1, k) == Dicts.Get(t, k)
  {
    Memory.SetOthersUnchanged(t, name, enabled, now);
    match Reread(t, name, now)
    case Err(_) =>
    case Ok(m) =>
      Memory.SetMetaThenGet(t, name, m.(conditions := m.conditions + [c]));
      Memory.SetMetaThenGet(t, name, m.(conditions := cs));
      Memory.SetMetaThenGet(t, name, Meta.Updated(m, None, Some(d), None, None).1);
      Memory.SetMetaThenGet(t, name, Meta.Updated(m, None, None, None, Some(b)).1);
  }
}
