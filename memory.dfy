/** The in-memory store: a table from flag names to stored items, changed in place.
  * The table is a Python dictionary, so its entries keep their insertion order. */
module Memory {
  import opened Wrappers
  import opened Values
  import Dicts
  import Strings
  import Meta
  import Item

  type Table = Dicts.Dict<Item.Item>

  /** Distinct names, each holding an item of that name: `_save` files an item under
    * its own name. */
  predicate WellFormed(t: Table) {
    Dicts.DistinctKeys(t) && forall i :: 0 <= i < |t| ==> t[i].1.name == t[i].0
  }

  /** The item `create` makes: the switch, the client data and the creation time
    * `now`, with no conditions and the no-op bucketer. */
  function Fresh(name: string, enabled: bool, clientData: Json, now: int): Item.Item {
    Item.Item(name, enabled, Meta.New(now, clientData, [], None))
  }

  // The table after each operation; the methods of MemoryStore are proved to
  // produce exactly these.

  /** `create`: a fresh item under its name, over any earlier one. */
  function Created(t: Table, name: string, enabled: bool, clientData: Json, now: int): Table {
    Dicts.Put(t, name, Fresh(name, enabled, clientData, now))
  }

  /** `set`: an absent name is created, without client data; a present one gets the
    * new switch and the meta rebuilt from its dictionary form, which can fail. */
  function AfterSet(t: Table, name: string, enabled: bool, now: int): (Outcome, Table) {
    match Dicts.Get(t, name)
    case None => (Pass, Created(t, name, enabled, JNull, now))
    case Some(existing) =>
      match Meta.FromDict(Meta.ToDict(existing.meta), now)
      case Err(e) => (Fail(e), t)
      case Ok(m) => (Pass, Dicts.Put(t, name, Item.Item(name, enabled, m)))
  }

  /** `set_meta`: an absent name raises FlagDoesNotExistError; a present one keeps
    * its switch and takes the new meta. */
  function AfterSetMeta(t: Table, name: string, m: Meta.Meta): (Outcome, Table) {
    match Dicts.Get(t, name)
    case None => (Fail(FlagDoesNotExist), t)
    case Some(existing) => (Pass, Dicts.Put(t, name, Item.Item(name, existing.enabled, m)))
  }

  /** A bound of a Python slice over `n` elements: a negative bound counts from the
    * end, and a bound outside the sequence is clamped to it. */
  function SliceIndex(i: int, n: nat): (k: nat)
    ensures k <= n
    ensures 0 <= i <= n ==> k == i
    ensures i > n ==> k == n
    ensures i < 0 && n + i >= 0 ==> k == n + i
    ensures n + i < 0 ==> k == 0
  {
    if i < 0 then (if n + i < 0 then 0 else n + i) else if i > n then n else i
  }

  /** `sorted(self._memory.keys())`. */
  function SortedNames(t: Table): seq<string>
    requires Dicts.DistinctKeys(t)
  {
    Dicts.Keys(Dicts.SortByKey(t))
  }

  /** Where `[offset:]` and then `[:limit]` cut a sequence of `n` elements: the
    * second slice is taken from what the first one left. */
  function Bounds(n: nat, limit: Option<int>, offset: int): (b: (nat, nat))
    ensures b.0 <= b.1 <= n
  {
    var lo := SliceIndex(offset, n);
    (lo, if limit.None? then n else lo + SliceIndex(limit.value, n - lo))
  }

  /** The names `list(limit, offset)` visits: `sorted(names)[offset:]`, then
    * `[:limit]` when a limit is given. */
  function ListedNames(t: Table, limit: Option<int>, offset: int): seq<string>
    requires Dicts.DistinctKeys(t)
  {
    var b := Bounds(|t|, limit, offset);
    SortedNames(t)[b.0..b.1]
  }

  class MemoryStore {
    var memory: Table

    predicate Valid()
      reads this
    {
      WellFormed(memory)
    }

    constructor ()
      ensures Valid() && memory == []
    {
      memory := [];
    }

    /** `create`. */
    method Create(name: string, enabled: bool, clientData: Json, now: int) returns (item: Item.Item)
      requires Valid()
      modifies this
      ensures Valid()
      ensures item == Fresh(name, enabled, clientData, now)
      ensures memory == Created(old(memory), name, enabled, clientData, now)
    {
      item := Fresh(name, enabled, clientData, now);
      Save(item);
    }

    /** `_save`: the item is filed under its own name. */
    method Save(item: Item.Item)
      requires Valid()
      modifies this
      ensures Valid()
      ensures memory == Dicts.Put(old(memory), item.name, item)
    {
      PutWellFormed(memory, item);
      memory := Dicts.Put(memory, item.name, item);
    }

    /** `get`: the item filed under the name, if any. */
    function Get(name: string): (r: Option<Item.Item>)
      reads this
      ensures r.None? <==> name !in Dicts.Keys(memory)
      ensures Valid() && r.Some? ==> r.value.name == name
    {
      var r := Dicts.Get(memory, name);
      if r.Some? then
        EntryName(memory, name, r.value);
        r
      else r
    }

    /** `set`. */
    method Set(name: string, enabled: bool, now: int) returns (r: Outcome)
      requires Valid()
      modifies this
      ensures Valid()
      ensures (r, memory) == AfterSet(old(memory), name, enabled, now)
    {
      var existing := Get(name);
      if existing.None? {
        var _ := Create(name, enabled, JNull, now);
        return Pass;
      }
      var m := Meta.FromDict(Meta.ToDict(existing.value.meta), now);
      if m.Err? {
        return Fail(m.error);
      }
      Save(Item.Item(name, enabled, m.value));
      r := Pass;
    }

    /** `delete`: removes the name when present. */
    method Delete(name: string)
      requires Valid()
      modifies this
      ensures Valid()
      ensures memory == Dicts.Remove(old(memory), name)
    {
      if name in Dicts.Keys(memory) {
        memory := Dicts.Remove(memory, name);
      } else {
        Dicts.RemoveAbsent(memory, name);
      }
    }

    /** `list(limit, offset)`: the items under the listed names, in order. */
    method List(limit: Option<int>, offset: int) returns (out: seq<Item.Item>)
      requires Valid()
      ensures |out| == |ListedNames(memory, limit, offset)|
      ensures forall i :: 0 <= i < |out| ==> Some(out[i]) == Dicts.Get(memory, ListedNames(memory, limit, offset)[i])
    {
      var sorted := SortedNames(memory);
      var names := sorted[SliceIndex(offset, |sorted|)..];
      if limit.Some? {
        names := names[..SliceIndex(limit.value, |names|)];
      }
      SliceTwice(sorted, limit, offset, names);
      ListedPresent(memory, limit, offset);
      out := [];
      for i := 0 to |names|
        invariant |out| == i
        invariant forall j :: 0 <= j < i ==> Some(out[j]) == Dicts.Get(memory, names[j])
      {
        var item := Get(names[i]);
        ListedSnoc(memory, names, out, item.value);
        out := out + [item.value];
      }
    }

    /** `set_meta`. */
    method SetMeta(name: string, m: Meta.Meta) returns (r: Outcome)
      requires Valid()
      modifies this
      ensures Valid()
      ensures (r, memory) == AfterSetMeta(old(memory), name, m)
    {
      var existing := Get(name);
      if existing.None? {
        return Fail(FlagDoesNotExist);
      }
      Save(Item.Item(name, existing.value.enabled, m));
      r := Pass;
    }
  }

  // Helpers about the table.

  lemma EntryName(t: Table, name: string, item: Item.Item)
    requires (name, item) in t
    ensures WellFormed(t) ==> item.name == name
  {
  }

  lemma PutWellFormed(t: Table, item: Item.Item)
    requires WellFormed(t)
    ensures WellFormed(Dicts.Put(t, item.name, item))
  {
    Dicts.PutDistinct(t, item.name, item);
    Dicts.PutEntries(t, item.name, item);
  }

  /** `[offset:]` followed by `[:limit]` cuts at the two bounds of `Bounds`. */
  lemma SliceTwice(s: seq<string>, limit: Option<int>, offset: int, names: seq<string>)
    requires names == if limit.None? then s[SliceIndex(offset, |s|)..]
      else s[SliceIndex(offset, |s|)..][..SliceIndex(limit.value, |s| - SliceIndex(offset, |s|))]
    ensures names == s[Bounds(|s|, limit, offset).0..Bounds(|s|, limit, offset).1]
  {
  }

  /** One more listed item, found under the next listed name. */
  lemma ListedSnoc(t: Table, names: seq<string>, out: seq<Item.Item>, x: Item.Item)
    requires |out| < |names| && Some(x) == Dicts.Get(t, names[|out|])
    requires forall j :: 0 <= j < |out| ==> Some(out[j]) == Dicts.Get(t, names[j])
    ensures forall j :: 0 <= j < |out| + 1 ==> Some((out + [x])[j]) == Dicts.Get(t, names[j])
  {
  }

  lemma ListedPresent(t: Table, limit: Option<int>, offset: int)
    requires Dicts.DistinctKeys(t)
    ensures forall i :: 0 <= i < |ListedNames(t, limit, offset)| ==> ListedNames(t, limit, offset)[i] in Dicts.Keys(t)
  {
    SortedNamesPresent(t);
  }

  lemma SortedNamesPresent(t: Table)
    requires Dicts.DistinctKeys(t)
    ensures |SortedNames(t)| == |t|
    ensures forall i :: 0 <= i < |SortedNames(t)| ==> SortedNames(t)[i] in Dicts.Keys(t)
  {
    var s := Dicts.SortByKey(t);
    forall i | 0 <= i < |s| ensures s[i].0 in Dicts.Keys(t) {
      var j :| 0 <= j < |t| && t[j] == s[i];
      assert Dicts.Keys(t)[j] == s[i].0;
    }
  }

  /** The sorted names are in strictly ascending order. */
  lemma SortedNamesAscending(t: Table)
    requires Dicts.DistinctKeys(t)
    ensures forall i, j :: 0 <= i < j < |SortedNames(t)| ==> Strings.Less(SortedNames(t)[i], SortedNames(t)[j])
  {
    var s := Dicts.SortByKey(t);
    assert Dicts.SortedByKey(s);
  }

  // What the store promises.

  /** After `create`, `get` returns the new item: the name, the switch, the client
    * data when truthy and `{}` otherwise, and no conditions or bucketer; every
    * other name is unchanged. */
  lemma CreateThenGet(t: Table, name: string, enabled: bool, clientData: Json, now: int)
    ensures Dicts.Get(Created(t, name, enabled, clientData, now), name) == Some(Fresh(name, enabled, clientData, now))
    ensures Fresh(name, enabled, clientData, now).name == name && Fresh(name, enabled, clientData, now).enabled == enabled
    ensures Truthy(clientData) ==> Fresh(name, enabled, clientData, now).meta.clientData == clientData
    ensures clientData == JNull ==> Fresh(name, enabled, clientData, now).meta == Meta.Meta(now, JObj([]), [], Meta.Bucketers.NoOp)
    ensures forall k :: k != name ==> Dicts.Get(Created(t, name, enabled, clientData, now), k) == Dicts.Get(t, k)
  {
    Dicts.PutGet(t, name, Fresh(name, enabled, clientData, now));
  }

  /** `set` on an absent name creates it, with that switch. */
  lemma SetAbsent(t: Table, name: string, enabled: bool, now: int)
    requires name !in Dicts.Keys(t)
    ensures AfterSet(t, name, enabled, now) == (Pass, Created(t, name, enabled, JNull, now))
    ensures Dicts.Get(AfterSet(t, name, enabled, now).1, name) == Some(Fresh(name, enabled, JNull, now))
  {
    CreateThenGet(t, name, enabled, JNull, now);
  }

  /** `set` on a present name with a storable meta changes the switch and nothing
    * else. */
  lemma SetKeepsMeta(t: Table, name: string, enabled: bool, now: int)
    requires WellFormed(t) && name in Dicts.Keys(t)
    requires Meta.Storable(Dicts.Get(t, name).value.meta)
    ensures AfterSet(t, name, enabled, now) == (Pass, Dicts.Put(t, name, Dicts.Get(t, name).value.(enabled := enabled)))
    ensures Dicts.Get(AfterSet(t, name, enabled, now).1, name) == Some(Dicts.Get(t, name).value.(enabled := enabled))
  {
    var e := Dicts.Get(t, name).value;
    EntryName(t, name, e);
    Meta.DictRoundTrip(e.meta, now);
    Dicts.PutGet(t, name, e.(enabled := enabled));
  }

  /** `set` either fails and changes nothing, or leaves the name holding the new
    * switch; every other name is unchanged either way. */
  lemma SetOthersUnchanged(t: Table, name: string, enabled: bool, now: int)
    ensures AfterSet(t, name, enabled, now).0.Fail? ==> AfterSet(t, name, enabled, now).1 == t
    ensures AfterSet(t, name, enabled, now).0.Pass? ==>
      var g := Dicts.Get(AfterSet(t, name, enabled, now).1, name);
      g.Some? && g.value.name == name && g.value.enabled == enabled
    ensures forall k :: k != name ==> Dicts.Get(AfterSet(t, name, enabled, now).1, k) == Dicts.Get(t, k)
  {
    match Dicts.Get(t, name)
    case None =>
      CreateThenGet(t, name, enabled, JNull, now);
    case Some(existing) =>
      match Meta.FromDict(Meta.ToDict(existing.meta), now)
      case Err(_) =>
      case Ok(m) =>
        Dicts.PutGet(t, name, Item.Item(name, enabled, m));
  }

  /** After `delete`, `get` of the name is None and every other name is unchanged;
    * deleting an absent name changes nothing. */
  lemma DeleteThenGet(t: Table, name: string)
    ensures Dicts.Get(Dicts.Remove(t, name), name) == None
    ensures forall k :: k != name ==> Dicts.Get(Dicts.Remove(t, name), k) == Dicts.Get(t, k)
    ensures name !in Dicts.Keys(t) ==> Dicts.Remove(t, name) == t
  {
    if name !in Dicts.Keys(t) {
      Dicts.RemoveAbsent(t, name);
    }
  }

  /** `set_meta` on an absent name fails and changes nothing; on a present one the
    * name keeps its switch and holds the new meta, and every other name is
    * unchanged. */
  lemma SetMetaThenGet(t: Table, name: string, m: Meta.Meta)
    ensures name !in Dicts.Keys(t) ==> AfterSetMeta(t, name, m) == (Fail(FlagDoesNotExist), t)
    ensures name in Dicts.Keys(t) ==>
      AfterSetMeta(t, name, m).0 == Pass &&
      Dicts.Get(AfterSetMeta(t, name, m).1, name) == Some(Item.Item(name, Dicts.Get(t, name).value.enabled, m))
    ensures forall k :: k != name ==> Dicts.Get(AfterSetMeta(t, name, m).1, k) == Dicts.Get(t, k)
  {
    if name in Dicts.Keys(t) {
      Dicts.PutGet(t, name, Item.Item(name, Dicts.Get(t, name).value.enabled, m));
    }
  }

  /** Every operation keeps the table well formed. */
  lemma OperationsKeepWellFormed(t: Table, name: string, enabled: bool, clientData: Json, now: int, m: Meta.Meta)
    requires WellFormed(t)
    ensures WellFormed(Created(t, name, enabled, clientData, now))
    ensures WellFormed(AfterSet(t, name, enabled, now).1)
    ensures WellFormed(Dicts.Remove(t, name))
    ensures WellFormed(AfterSetMeta(t, name, m).1)
  {
    PutWellFormed(t, Fresh(name, enabled, clientData, now));
    match Dicts.Get(t, name)
    case None =>
      assert AfterSet(t, name, enabled, now).1 == Dicts.Put(t, name, Fresh(name, enabled, JNull, now));
      PutWellFormed(t, Fresh(name, enabled, JNull, now));
    case Some(existing) =>
      PutWellFormed(t, Item.Item(name, existing.enabled, m));
      match Meta.FromDict(Meta.ToDict(existing.meta), now)
      case Err(_) =>
      case Ok(m') =>
        PutWellFormed(t, Item.Item(name, enabled, m'));
  }

  // What `list` promises.

  /** The names are listed in strictly ascending order, each of them in the table. */
  lemma ListedAscending(t: Table, limit: Option<int>, offset: int)
    requires Dicts.DistinctKeys(t)
    ensures var ns := ListedNames(t, limit, offset);
      (forall i, j :: 0 <= i < j < |ns| ==> Strings.Less(ns[i], ns[j])) &&
      (forall i :: 0 <= i < |ns| ==> ns[i] in Dicts.Keys(t))
  {
    ListedPresent(t, limit, offset);
    SortedNamesPresent(t);
    SortedNamesAscending(t);
    var b := Bounds(|t|, limit, offset);
    SliceAscending(SortedNames(t), b.0, b.1);
  }

  lemma SliceAscending(names: seq<string>, lo: nat, hi: nat)
    requires lo <= hi <= |names|
    requires forall i, j :: 0 <= i < j < |names| ==> Strings.Less(names[i], names[j])
    ensures forall i, j :: 0 <= i < j < hi - lo ==> Strings.Less(names[lo..hi][i], names[lo..hi][j])
  {
    forall i, j | 0 <= i < j < hi - lo ensures Strings.Less(names[lo..hi][i], names[lo..hi][j]) {
      assert names[lo..hi][i] == names[lo + i] && names[lo..hi][j] == names[lo + j];
    }
  }

  /** Without a limit and from offset 0, every name in the table is listed. */
  lemma ListedAll(t: Table)
    requires Dicts.DistinctKeys(t)
    ensures |ListedNames(t, None, 0)| == |t|
    ensures forall k :: k in Dicts.Keys(t) ==> k in ListedNames(t, None, 0)
  {
    var s := Dicts.SortByKey(t);
    Dicts.SortByKeyElements(t);
    assert ListedNames(t, None, 0) == Dicts.Keys(s);
    forall k | k in Dicts.Keys(t) ensures k in Dicts.Keys(s) {
      var j :| 0 <= j < |t| && t[j].0 == k;
      assert t[j] in multiset(t);
      assert t[j] in s;
      var i :| 0 <= i < |s| && s[i] == t[j];
      assert Dicts.Keys(s)[i] == k;
    }
  }

  /** For a non-negative offset and limit, `list` visits the sorted names numbered
    * `offset` up to `offset + limit`, and without a limit all those from `offset`. */
  lemma ListedIsSlice(t: Table, limit: nat, offset: nat)
    requires Dicts.DistinctKeys(t)
    ensures var names := SortedNames(t);
      var lo := if offset < |names| then offset else |names|;
      var hi := if offset + limit < |names| then offset + limit else |names|;
      ListedNames(t, Some(limit), offset) == names[lo..hi] &&
      ListedNames(t, None, offset) == names[lo..]
  {
  }

  /** A negative offset counts from the end: `offset = -k` lists the last `k`
    * names, and a negative limit drops names from the end. */
  lemma NegativeBoundsCountFromEnd(t: Table, k: nat, limit: int)
    requires Dicts.DistinctKeys(t) && 0 < k <= |t|
    requires -(|t| - k) <= limit < 0
    ensures var names := SortedNames(t);
      ListedNames(t, None, -(k as int)) == names[|t| - k..] &&
      ListedNames(t, Some(limit), 0) == names[..|t| + limit]
  {
  }

  /** Each listed item carries the name it is listed under. */
  lemma ListedItemsNamed(t: Table, limit: Option<int>, offset: int, out: seq<Item.Item>)
    requires WellFormed(t)
    requires |out| == |ListedNames(t, limit, offset)|
    requires forall i :: 0 <= i < |out| ==> Some(out[i]) == Dicts.Get(t, ListedNames(t, limit, offset)[i])
    ensures forall i :: 0 <= i < |out| ==> out[i].name == ListedNames(t, limit, offset)[i]
  {
    forall i | 0 <= i < |out| ensures out[i].name == ListedNames(t, limit, offset)[i] {
      EntryName(t, ListedNames(t, limit, offset)[i], out[i]);
    }
  }
}
