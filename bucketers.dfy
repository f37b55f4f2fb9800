/** Bucketers decide whether a caller falls inside a flag's rollout: the no-op
  * bucketer admits everyone, the percentage bucketer compares a random draw with
  * its percentage, and the consistent-hash bucketer compares a score derived from
  * a hash of the caller's (whitelisted, sorted) attributes. The draw and the hash
  * are passed in. */
module Bucketers {
  import opened Wrappers
  import opened Values
  import Dicts
  import Percentages

  datatype Bucketer =
    | NoOp
    | PercentageBucketer(percentage: Percentages.Percentage)
    | ConsistentHash(percentage: Percentages.Percentage, whitelist: seq<string>)

  /** A hash of the serialized attribute pairs. */
  type Hash = Dicts.Dict<Value> -> nat

  /** The keyword argument of `check` that a caller's attribute of the same name
    * is bound to instead of being passed along with the others. */
  const RandomizerName: string := "randomizer"

  /** `get_type`. */
  function TypeName(b: Bucketer): string {
    match b
    case NoOp => "NoOpBucketer"
    case PercentageBucketer(_) => "PercentageBucketer"
    case ConsistentHash(_, _) => "ConsistentHashPercentageBucketer"
  }

  /** `self._percentage == 0`. */
  predicate IsZero(p: Percentages.Percentage, now: int) {
    Percentages.EqualsValue(p, now, JInt(0)) == Ok(true)
  }

  /** `_should_check_key`: every key when the whitelist is empty, otherwise only the
    * whitelisted ones. */
  predicate ShouldCheckKey(whitelist: seq<string>, key: string) {
    |whitelist| == 0 || key in whitelist
  }

  /** `a` is `b` with some entries left out and the others kept in their order. */
  predicate SubsequenceOf(a: Dicts.Dict<Value>, b: Dicts.Dict<Value>)
    decreases |b|
  {
    |a| == 0 || (|b| > 0 && if a[0] == b[0] then SubsequenceOf(a[1..], b[1..]) else SubsequenceOf(a, b[1..]))
  }

  /** `_filter_checks`: the attributes in their order, keeping exactly the entries
    * whose names the whitelist allows. */
  function Filter(whitelist: seq<string>, attrs: Dicts.Dict<Value>): (r: Dicts.Dict<Value>)
    ensures forall i :: 0 <= i < |r| ==> r[i] in attrs && ShouldCheckKey(whitelist, r[i].0)
    ensures forall i :: 0 <= i < |attrs| && ShouldCheckKey(whitelist, attrs[i].0) ==> attrs[i] in r
    ensures SubsequenceOf(r, attrs)
    decreases |attrs|
  {
    if |attrs| == 0 then []
    else
      var rest := Filter(whitelist, attrs[1..]);
      assert forall i :: 1 <= i < |attrs| ==> attrs[i] == attrs[1..][i - 1];
      assert attrs == [attrs[0]] + attrs[1..];
      if ShouldCheckKey(whitelist, attrs[0].0) then
        assert ([attrs[0]] + rest)[1..] == rest;
        [attrs[0]] + rest
      else
        rest
  }

  /** The attributes `check(**attrs)` receives as `checks`. */
  function Passed(attrs: Dicts.Dict<Value>): Dicts.Dict<Value> {
    Dicts.Remove(attrs, RandomizerName)
  }

  /** What is hashed: the whitelisted attributes sorted by name. */
  function Payload(whitelist: seq<string>, attrs: Dicts.Dict<Value>): Dicts.Dict<Value>
    requires Dicts.DistinctKeys(attrs)
  {
    FilterDistinct(whitelist, attrs);
    Dicts.SortByKey(Filter(whitelist, attrs))
  }

  /** `_score_hash`: the hash modulo 100, in hundredths. */
  function Score(h: nat): (s: real)
    ensures 0.0 <= s <= 0.99
  {
    ((h % 100) as real) / 100.0
  }

  /** The consistent-hash score of a caller: the hash of what is hashed, in
    * hundredths. */
  function HashScore(whitelist: seq<string>, attrs: Dicts.Dict<Value>, hash: Hash): (s: real)
    requires Dicts.DistinctKeys(attrs)
  {
    Score(hash(Payload(whitelist, Passed(attrs))))
  }

  /** The shared last step of both percentage bucketers: a zero percentage refuses,
    * otherwise `x <= p`, which Python answers by `p >= x`. */
  function Admit(p: Percentages.Percentage, now: int, x: real): Result<bool> {
    if IsZero(p, now) then Ok(false)
    else Percentages.CompareValue(p, now, GreaterOrEqual, JNum(x))
  }

  /** `check(**attrs)`. The percentage bucketer calls its randomizer only when the
    * percentage is not zero, and a caller's attribute named `randomizer` takes its
    * place (no attribute value can be called, so that raises TypeError). */
  function Check(b: Bucketer, attrs: Dicts.Dict<Value>, draw: real, hash: Hash, now: int): (r: Result<bool>)
    requires Dicts.DistinctKeys(attrs)
    ensures b.NoOp? ==> r == Ok(true)
    ensures !b.NoOp? && IsZero(b.percentage, now) ==> r == Ok(false)
    ensures b.PercentageBucketer? && !IsZero(b.percentage, now) && RandomizerName !in Dicts.Keys(attrs)
            ==> r == Percentages.CompareValue(b.percentage, now, GreaterOrEqual, JNum(draw))
    ensures b.PercentageBucketer? && !IsZero(b.percentage, now) && RandomizerName in Dicts.Keys(attrs)
            ==> r == Err(TypeError)
    ensures b.ConsistentHash? && !IsZero(b.percentage, now)
            ==> r == Percentages.CompareValue(b.percentage, now, GreaterOrEqual, JNum(HashScore(b.whitelist, attrs, hash)))
  {
    match b
    case NoOp => Ok(true)
    case PercentageBucketer(p) =>
      if IsZero(p, now) then Ok(false)
      else if RandomizerName in Dicts.Keys(attrs) then Err(TypeError)
      else Admit(p, now, draw)
    case ConsistentHash(p, whitelist) => Admit(p, now, HashScore(whitelist, attrs, hash))
  }

  /** With a static numeric percentage `v`, admission is `x <= v` unless `v` is 0. */
  lemma AdmitStatic(v: real, now: int, x: real)
    ensures Admit(Percentages.Static(JNum(v)), now, x) == Ok(v != 0.0 && x <= v)
  {
  }

  lemma FilterDistinct(whitelist: seq<string>, attrs: Dicts.Dict<Value>)
    requires Dicts.DistinctKeys(attrs)
    ensures Dicts.DistinctKeys(Filter(whitelist, attrs))
    decreases |attrs|
  {
    if |attrs| > 0 {
      assert Dicts.DistinctKeys(attrs[1..]);
      FilterDistinct(whitelist, attrs[1..]);
      var rest := Filter(whitelist, attrs[1..]);
      forall i | 0 <= i < |rest| ensures rest[i].0 != attrs[0].0 {
        var j :| 0 <= j < |attrs[1..]| && attrs[1..][j] == rest[i];
        assert attrs[j + 1] == rest[i];
      }
    }
  }

  // What the bucketers promise.

  /** The no-op bucketer admits every caller. */
  lemma NoOpAdmitsAll(attrs: Dicts.Dict<Value>, draw: real, hash: Hash, now: int)
    requires Dicts.DistinctKeys(attrs)
    ensures Check(NoOp, attrs, draw, hash, now) == Ok(true)
  {
  }

  /** A percentage of zero admits nobody, before any draw or hash. */
  lemma ZeroAdmitsNobody(p: Percentages.Percentage, w: seq<string>, attrs: Dicts.Dict<Value>, draw: real, hash: Hash, now: int)
    requires Dicts.DistinctKeys(attrs) && AsNumber(Percentages.ValueAt(p, now)) == Some(0.0)
    ensures Check(PercentageBucketer(p), attrs, draw, hash, now) == Ok(false)
    ensures Check(ConsistentHash(p, w), attrs, draw, hash, now) == Ok(false)
  {
  }

  /** With a non-zero numeric percentage, the percentage bucketer admits exactly
    * the draws at or below it. */
  lemma PercentageBucketerAdmitsDrawsBelow(v: real, attrs: Dicts.Dict<Value>, draw: real, hash: Hash, now: int)
    requires Dicts.DistinctKeys(attrs) && v != 0.0 && RandomizerName !in Dicts.Keys(attrs)
    ensures Check(PercentageBucketer(Percentages.Static(JNum(v))), attrs, draw, hash, now) == Ok(draw <= v)
  {
  }

  /** With a non-zero numeric percentage, the consistent-hash bucketer admits
    * exactly the callers whose score is at or below it. */
  lemma ConsistentHashAdmitsScoresBelow(v: real, w: seq<string>, attrs: Dicts.Dict<Value>, hash: Hash, now: int)
    requires Dicts.DistinctKeys(attrs) && v != 0.0
    ensures Check(ConsistentHash(Percentages.Static(JNum(v)), w), attrs, 0.0, hash, now) == Ok(HashScore(w, attrs, hash) <= v)
  {
    AdmitStatic(v, now, HashScore(w, attrs, hash));
  }

  /** At 0.5, draws of 0.4 and 0.5 pass and a draw of 0.6 fails; at 0 even a draw
    * of 0.0 fails. */
  lemma PercentageBucketerExamples(hash: Hash, now: int)
    ensures Check(PercentageBucketer(Percentages.Static(JNum(0.5))), [], 0.4, hash, now) == Ok(true)
    ensures Check(PercentageBucketer(Percentages.Static(JNum(0.5))), [], 0.5, hash, now) == Ok(true)
    ensures Check(PercentageBucketer(Percentages.Static(JNum(0.5))), [], 0.6, hash, now) == Ok(false)
    ensures Check(PercentageBucketer(Percentages.Static(JNum(0.0))), [], 0.0, hash, now) == Ok(false)
  {
  }

  /** A value of 0.99 or more admits every caller through the consistent hash. */
  lemma HighPercentageAdmitsAll(v: real, w: seq<string>, attrs: Dicts.Dict<Value>, hash: Hash, now: int)
    requires Dicts.DistinctKeys(attrs) && v >= 0.99
    ensures Check(ConsistentHash(Percentages.Static(JNum(v)), w), attrs, 0.0, hash, now) == Ok(true)
  {
    AdmitStatic(v, now, HashScore(w, attrs, hash));
  }

  /** Consistent-hash admission is monotone in the percentage. */
  lemma ConsistentHashMonotone(v1: real, v2: real, w: seq<string>, attrs: Dicts.Dict<Value>, hash: Hash, now: int)
    requires Dicts.DistinctKeys(attrs) && v1 <= v2
    requires Check(ConsistentHash(Percentages.Static(JNum(v1)), w), attrs, 0.0, hash, now) == Ok(true)
    ensures Check(ConsistentHash(Percentages.Static(JNum(v2)), w), attrs, 0.0, hash, now) == Ok(true)
  {
    var s := HashScore(w, attrs, hash);
    AdmitStatic(v1, now, s);
    AdmitStatic(v2, now, s);
  }

  /** With an empty whitelist every attribute is hashed. */
  lemma {:induction false} EmptyWhitelistKeepsAll(attrs: Dicts.Dict<Value>)
    ensures Filter([], attrs) == attrs
    decreases |attrs|
  {
    if |attrs| > 0 {
      EmptyWhitelistKeepsAll(attrs[1..]);
    }
  }

  /** Under a non-empty whitelist, setting an attribute that is not whitelisted
    * leaves what is hashed unchanged. */
  lemma {:induction false} FilterIgnoresOthers(whitelist: seq<string>, attrs: Dicts.Dict<Value>, k: string, v: Value)
    requires |whitelist| > 0 && k !in whitelist
    ensures Filter(whitelist, Dicts.Put(attrs, k, v)) == Filter(whitelist, attrs)
    decreases |attrs|
  {
    if |attrs| > 0 && attrs[0].0 != k {
      FilterIgnoresOthers(whitelist, attrs[1..], k, v);
      assert ([attrs[0]] + Dicts.Put(attrs[1..], k, v))[1..] == Dicts.Put(attrs[1..], k, v);
    } else if |attrs| > 0 {
      assert ([(k, v)] + attrs[1..])[1..] == attrs[1..];
    }
  }

  /** Hence the consistent-hash answer does not depend on attributes outside a
    * non-empty whitelist. */
  lemma ConsistentHashIgnoresOthers(p: Percentages.Percentage, whitelist: seq<string>, attrs: Dicts.Dict<Value>,
                                    k: string, v: Value, hash: Hash, now: int)
    requires Dicts.DistinctKeys(attrs) && |whitelist| > 0 && k !in whitelist && k != RandomizerName
    ensures Dicts.DistinctKeys(Dicts.Put(attrs, k, v))
    ensures Check(ConsistentHash(p, whitelist), Dicts.Put(attrs, k, v), 0.0, hash, now)
      == Check(ConsistentHash(p, whitelist), attrs, 0.0, hash, now)
  {
    Dicts.PutDistinct(attrs, k, v);
    RemovePut(attrs, k, v);
    FilterIgnoresOthers(whitelist, Passed(attrs), k, v);
  }

  /** Removing `randomizer` commutes with setting another attribute. */
  lemma {:induction false} RemovePut(attrs: Dicts.Dict<Value>, k: string, v: Value)
    requires k != RandomizerName
    ensures Passed(Dicts.Put(attrs, k, v)) == Dicts.Put(Passed(attrs), k, v)
    decreases |attrs|
  {
    if |attrs| > 0 {
      RemovePut(attrs[1..], k, v);
      if attrs[0].0 == k {
        assert ([(k, v)] + attrs[1..])[1..] == attrs[1..];
      } else {
        assert ([attrs[0]] + Dicts.Put(attrs[1..], k, v))[1..] == Dicts.Put(attrs[1..], k, v);
      }
    }
  }

  /** The order in which attributes are supplied does not matter. */
  lemma ConsistentHashOrderIndependent(p: Percentages.Percentage, whitelist: seq<string>,
                                       a1: Dicts.Dict<Value>, a2: Dicts.Dict<Value>, hash: Hash, now: int)
    requires Dicts.DistinctKeys(a1) && Dicts.DistinctKeys(a2) && multiset(a1) == multiset(a2)
    ensures Check(ConsistentHash(p, whitelist), a1, 0.0, hash, now) == Check(ConsistentHash(p, whitelist), a2, 0.0, hash, now)
  {
    PassedOrderIndependent(whitelist, a1, a2);
  }

  /** Dropping `randomizer` and hashing the whitelisted rest ignores order. */
  lemma PassedOrderIndependent(whitelist: seq<string>, a1: Dicts.Dict<Value>, a2: Dicts.Dict<Value>)
    requires Dicts.DistinctKeys(a1) && Dicts.DistinctKeys(a2) && multiset(a1) == multiset(a2)
    ensures Payload(whitelist, Passed(a1)) == Payload(whitelist, Passed(a2))
  {
    RemoveMultiset(a1);
    RemoveMultiset(a2);
    var c1, c2 := Passed(a1), Passed(a2);
    assert multiset(c1) == multiset(c2) by {
      forall x ensures multiset(c1)[x] == multiset(c2)[x] { }
    }
    PayloadOrderIndependent(whitelist, c1, c2);
  }

  lemma PayloadOrderIndependent(whitelist: seq<string>, c1: Dicts.Dict<Value>, c2: Dicts.Dict<Value>)
    requires Dicts.DistinctKeys(c1) && Dicts.DistinctKeys(c2) && multiset(c1) == multiset(c2)
    ensures Payload(whitelist, c1) == Payload(whitelist, c2)
  {
    FilterMultiset(whitelist, c1);
    FilterMultiset(whitelist, c2);
    var f1, f2 := Filter(whitelist, c1), Filter(whitelist, c2);
    assert multiset(f1) == multiset(f2) by {
      forall x ensures multiset(f1)[x] == multiset(f2)[x] { }
    }
    FilterDistinct(whitelist, c1);
    FilterDistinct(whitelist, c2);
    Dicts.SortByKeyOrderIndependent(f1, f2);
  }

  lemma {:induction false} FilterMultiset(whitelist: seq<string>, attrs: Dicts.Dict<Value>)
    ensures forall x :: multiset(Filter(whitelist, attrs))[x] ==
                        (if ShouldCheckKey(whitelist, x.0) then multiset(attrs)[x] else 0)
    decreases |attrs|
  {
    if |attrs| > 0 {
      FilterMultiset(whitelist, attrs[1..]);
      assert attrs == [attrs[0]] + attrs[1..];
    }
  }

  lemma {:induction false} RemoveMultiset(attrs: Dicts.Dict<Value>)
    ensures forall x :: multiset(Passed(attrs))[x] == (if x.0 == RandomizerName then 0 else multiset(attrs)[x])
    decreases |attrs|
  {
    if |attrs| > 0 {
      RemoveMultiset(attrs[1..]);
      assert attrs == [attrs[0]] + attrs[1..];
    }
  }

  // The dictionary form.

  function WhitelistToJson(w: seq<string>): (js: seq<Json>)
    ensures |js| == |w| && forall i :: 0 <= i < |w| ==> js[i] == JStr(w[i])
  {
    if |w| == 0 then [] else [JStr(w[0])] + WhitelistToJson(w[1..])
  }

  /** `to_dict`: the type first; the percentage bucketers add their percentage, and
    * the consistent-hash one its whitelist. */
  function ToDict(b: Bucketer): (j: Json)
    ensures j.JObj? && |j.fields| > 0 && j.fields[0] == ("type", JStr(TypeName(b)))
  {
    match b
    case NoOp => JObj([("type", JStr("NoOpBucketer"))])
    case PercentageBucketer(p) =>
      JObj([("type", JStr("PercentageBucketer")), ("percentage", Percentages.ToDict(p))])
    case ConsistentHash(p, w) =>
      JObj([("type", JStr("ConsistentHashPercentageBucketer")), ("percentage", Percentages.ToDict(p)),
            ("key_whitelist", JArr(WhitelistToJson(w)))])
  }

  /** The first occurrence of each name, in order: `set(...)` with its order fixed. */
  function Dedup(xs: seq<string>): (r: seq<string>)
    ensures forall x :: x in r <==> x in xs
    ensures forall i, j :: 0 <= i < j < |r| ==> r[i] != r[j]
    decreases |xs|
  {
    if |xs| == 0 then []
    else
      var init := Dedup(xs[..|xs| - 1]);
      assert forall x :: x in xs <==> x in xs[..|xs| - 1] || x == xs[|xs| - 1] by {
        assert xs == xs[..|xs| - 1] + [xs[|xs| - 1]];
      }
      if xs[|xs| - 1] in init then init else init + [xs[|xs| - 1]]
  }

  /** A list without repeats is its own deduplication. */
  lemma {:induction false} DedupDistinct(xs: seq<string>)
    requires forall i, j :: 0 <= i < j < |xs| ==> xs[i] != xs[j]
    ensures Dedup(xs) == xs
    decreases |xs|
  {
    if |xs| > 0 {
      DedupDistinct(xs[..|xs| - 1]);
      assert xs[|xs| - 1] !in xs[..|xs| - 1];
      assert xs[..|xs| - 1] + [xs[|xs| - 1]] == xs;
    }
  }

  /** The names of a stored whitelist: a list or a dictionary cannot be put in a
    * set; other entries that are not names are not modelled. */
  function NamesFromJson(items: seq<Json>): Result<seq<string>>
    decreases |items|
  {
    if |items| == 0 then Ok([])
    else if items[0].JArr? || items[0].JObj? then Err(TypeError)
    else if !items[0].JStr? then Err(Unsupported)
    else
      var rest :- NamesFromJson(items[1..]);
      Ok([items[0].s] + rest)
  }

  lemma {:induction false} NamesRoundTrip(w: seq<string>)
    ensures NamesFromJson(WhitelistToJson(w)) == Ok(w)
    decreases |w|
  {
    if |w| > 0 {
      NamesRoundTrip(w[1..]);
      assert WhitelistToJson(w)[1..] == WhitelistToJson(w[1..]);
      assert w == [w[0]] + w[1..];
    }
  }

  /** `fields.get("key_whitelist", [])` made into a set: a list of names; a string
    * gives its characters and a dictionary its keys; None and numbers cannot be
    * iterated. */
  function WhitelistFromDict(fields: Dicts.Dict<Json>): Result<seq<string>> {
    match Dicts.Get(fields, "key_whitelist")
    case None => Ok([])
    case Some(j) =>
      match j
      case JArr(items) =>
        var names :- NamesFromJson(items);
        Ok(Dedup(names))
      case JStr(chars) => Ok(Dedup(Characters(chars)))
      case JObj(entries) => Ok(Dedup(Dicts.Keys(entries)))
      case _ => Err(TypeError)
  }

  /** The one-character strings of `s`, in order. */
  function Characters(s: string): (r: seq<string>)
    ensures |r| == |s| && forall i :: 0 <= i < |s| ==> r[i] == [s[i]]
  {
    if |s| == 0 then [] else [[s[0]]] + Characters(s[1..])
  }

  /** Repeats are dropped. */
  lemma WhitelistRepeatsDropped()
    ensures WhitelistFromDict([("key_whitelist", JArr([JStr("a"), JStr("a"), JStr("b")]))]) == Ok(["a", "b"])
  {
    NamesRoundTrip(["a", "a", "b"]);
    assert WhitelistToJson(["a", "a", "b"]) == [JStr("a"), JStr("a"), JStr("b")];
    DedupExample();
  }

  lemma DedupExample()
    ensures Dedup(["a", "a", "b"]) == ["a", "b"]
  {
    assert ["a", "a", "b"][..2] == ["a", "a"];
    assert ["a", "a"][..1] == ["a"];
    assert Dedup(["a"]) == ["a"];
    assert Dedup(["a", "a"]) == ["a"];
  }

  /** A string whitelist is read as its characters; None is refused; no whitelist
    * is an empty one. */
  lemma WhitelistOtherForms()
    ensures WhitelistFromDict([("key_whitelist", JStr("ab"))]) == Ok(["a", "b"])
    ensures WhitelistFromDict([("key_whitelist", JNull)]) == Err(TypeError)
    ensures WhitelistFromDict([]) == Ok([])
  {
    assert Characters("ab") == ["a", "b"];
    DedupDistinct(["a", "b"]);
  }

  /** The `percentage` field: absent or None gives `Percentage()`; a dictionary goes
    * through the percentage factory; anything else cannot be indexed by "type". */
  function PercentageFromDict(fields: Dicts.Dict<Json>, now: int): Result<Percentages.Percentage> {
    match Dicts.Get(fields, "percentage")
    case None => Ok(Percentages.Full)
    case Some(j) =>
      match j
      case JNull => Ok(Percentages.Full)
      case JObj(f) => Percentages.Create(f, now)
      case _ => Err(TypeError)
  }

  /** Inside the factory a KeyError from a variant's `from_dict` is reported as an
    * unsupported bucketer type. */
  function KeyErrorAsInvalidType(r: Result<Bucketer>): (r': Result<Bucketer>)
    ensures r'.Ok? <==> r.Ok?
    ensures r' != Err(KeyError)
  {
    match r
    case Err(KeyError) => Err(InvalidBucketerType)
    case _ => r
  }

  /** `BucketerFactory.create`: dispatch on `fields["type"]`; a missing type raises
    * KeyError (the handler reads the key again). */
  function Create(fields: Dicts.Dict<Json>, now: int): (r: Result<Bucketer>)
    ensures r == Err(KeyError) <==> Dicts.Get(fields, "type").None?
    ensures r.Ok? ==> Dicts.Get(fields, "type") == Some(JStr(TypeName(r.value)))
    ensures Dicts.Get(fields, "type").Some? && Dicts.Get(fields, "type").value.JStr?
            && Dicts.Get(fields, "type").value.s !in {"NoOpBucketer", "PercentageBucketer", "ConsistentHashPercentageBucketer"}
            ==> r == Err(InvalidBucketerType)
  {
    match Dicts.Get(fields, "type")
    case None => Err(KeyError)
    case Some(t) =>
      if t.JArr? || t.JObj? then Err(TypeError)
      else if t == JStr("NoOpBucketer") then Ok(NoOp)
      else if t == JStr("PercentageBucketer") then
        KeyErrorAsInvalidType(
          var p :- PercentageFromDict(fields, now);
          Ok(PercentageBucketer(p)))
      else if t == JStr("ConsistentHashPercentageBucketer") then
        KeyErrorAsInvalidType(
          var p :- PercentageFromDict(fields, now);
          var w :- WhitelistFromDict(fields);
          Ok(ConsistentHash(p, w)))
      else Err(InvalidBucketerType)
  }

  predicate DistinctNames(w: seq<string>) {
    forall i, j :: 0 <= i < j < |w| ==> w[i] != w[j]
  }

  /** Every bucketer (with a whitelist free of repeats, as every stored one is)
    * survives a trip through its dictionary form and the factory. */
  lemma CreateRoundTrip(b: Bucketer, now: int)
    requires b.ConsistentHash? ==> DistinctNames(b.whitelist)
    ensures Create(ToDict(b).fields, now) == Ok(b)
  {
    match b
    case NoOp =>
      Dicts.GetFirst(ToDict(b).fields, "type", 0);
    case PercentageBucketer(p) => PercentageBucketerRoundTrip(p, now);
    case ConsistentHash(p, w) => ConsistentHashRoundTrip(p, w, now);
  }

  lemma PercentageBucketerRoundTrip(p: Percentages.Percentage, now: int)
    ensures Create(ToDict(PercentageBucketer(p)).fields, now) == Ok(PercentageBucketer(p))
  {
    var f := ToDict(PercentageBucketer(p)).fields;
    Dicts.GetFirst(f, "type", 0);
    PercentageFieldAt(f, p, now);
    CreatePercentageBucketer(f, now, p);
  }

  lemma CreatePercentageBucketer(f: Dicts.Dict<Json>, now: int, p: Percentages.Percentage)
    requires Dicts.Get(f, "type") == Some(JStr("PercentageBucketer"))
    requires PercentageFromDict(f, now) == Ok(p)
    ensures Create(f, now) == Ok(PercentageBucketer(p))
  {
    TypeNamesDistinct();
  }

  lemma ConsistentHashRoundTrip(p: Percentages.Percentage, w: seq<string>, now: int)
    requires DistinctNames(w)
    ensures Create(ToDict(ConsistentHash(p, w)).fields, now) == Ok(ConsistentHash(p, w))
  {
    var f := ToDict(ConsistentHash(p, w)).fields;
    Dicts.GetFirst(f, "type", 0);
    PercentageFieldAt(f, p, now);
    WhitelistFieldAt(f, w);
    CreateConsistentHash(f, now, p, w);
  }

  lemma CreateConsistentHash(f: Dicts.Dict<Json>, now: int, p: Percentages.Percentage, w: seq<string>)
    requires Dicts.Get(f, "type") == Some(JStr("ConsistentHashPercentageBucketer"))
    requires PercentageFromDict(f, now) == Ok(p) && WhitelistFromDict(f) == Ok(w)
    ensures Create(f, now) == Ok(ConsistentHash(p, w))
  {
    TypeNamesDistinct();
  }

  lemma TypeNamesDistinct()
    ensures JStr("PercentageBucketer") != JStr("NoOpBucketer")
    ensures JStr("ConsistentHashPercentageBucketer") != JStr("NoOpBucketer")
    ensures JStr("ConsistentHashPercentageBucketer") != JStr("PercentageBucketer")
  {
    assert "PercentageBucketer"[0] != "NoOpBucketer"[0];
    assert "ConsistentHashPercentageBucketer"[0] != "NoOpBucketer"[0];
    assert "ConsistentHashPercentageBucketer"[0] != "PercentageBucketer"[0];
  }

  lemma PercentageFieldAt(f: Dicts.Dict<Json>, p: Percentages.Percentage, now: int)
    requires |f| >= 2 && f[0].0 == "type" && f[1] == ("percentage", Percentages.ToDict(p))
    ensures PercentageFromDict(f, now) == Ok(p)
  {
    assert f[0].0 != "percentage";
    Dicts.GetFirst(f, "percentage", 1);
    Percentages.CreateRoundTrip(p, now);
  }

  lemma WhitelistFieldAt(f: Dicts.Dict<Json>, w: seq<string>)
    requires |f| == 3 && f[0].0 == "type" && f[1].0 == "percentage"
    requires f[2] == ("key_whitelist", JArr(WhitelistToJson(w))) && DistinctNames(w)
    ensures WhitelistFromDict(f) == Ok(w)
  {
    assert f[0].0 != "key_whitelist" && f[1].0 != "key_whitelist";
    Dicts.GetFirst(f, "key_whitelist", 2);
    ReadWhitelist(f, w);
  }

  lemma ReadWhitelist(f: Dicts.Dict<Json>, w: seq<string>)
    requires Dicts.Get(f, "key_whitelist") == Some(JArr(WhitelistToJson(w))) && DistinctNames(w)
    ensures WhitelistFromDict(f) == Ok(w)
  {
    NamesRoundTrip(w);
    DedupDistinct(w);
  }

  /** The factory's errors: KeyError exactly when there is no type, and a variant
    * whose reading raises KeyError is reported as an unsupported type. */
  lemma CreateErrors(fields: Dicts.Dict<Json>, now: int)
    ensures Create(fields, now) == Err(KeyError) <==> Dicts.Get(fields, "type").None?
    ensures Dicts.Get(fields, "type") == Some(JStr("PercentageBucketer")) &&
            PercentageFromDict(fields, now) == Err(KeyError) ==>
            Create(fields, now) == Err(InvalidBucketerType)
  {
  }

  /** A percentage bucketer whose percentage lacks its type is refused as an
    * unsupported bucketer type; one without a percentage gets `Percentage()`; the
    * no-op bucketer ignores every other field. */
  lemma CreateExamples(now: int, extra: Json)
    ensures Create([("type", JStr("PercentageBucketer")), ("percentage", JObj([("value", JNum(0.21))]))], now)
      == Err(InvalidBucketerType)
    ensures Create([("type", JStr("PercentageBucketer"))], now) == Ok(PercentageBucketer(Percentages.Full))
    ensures Create([("type", JStr("NoOpBucketer")), ("other", extra)], now) == Ok(NoOp)
  {
    assert JStr("PercentageBucketer") != JStr("NoOpBucketer") by {
      assert "PercentageBucketer"[0] != "NoOpBucketer"[0];
    }
    var inner: Dicts.Dict<Json> := [("value", JNum(0.21))];
    assert "type" !in Dicts.Keys(inner);
    var f: Dicts.Dict<Json> := [("type", JStr("PercentageBucketer")), ("percentage", JObj(inner))];
    Dicts.GetFirst(f, "type", 0);
    Dicts.GetFirst(f, "percentage", 1);
    assert "percentage" !in Dicts.Keys([("type", JStr("PercentageBucketer"))]);
  }

  /** The percentage carried into the bucketer: `percentage=0.21` in the stored
    * form reads back as 0.21. */
  lemma PercentagePassesThrough(now: int)
    ensures Create([("type", JStr("PercentageBucketer")),
                    ("percentage", JObj([("type", JStr("Percentage")), ("value", JNum(0.21))]))], now)
      == Ok(PercentageBucketer(Percentages.Static(JNum(0.21))))
  {
    var p := Percentages.Static(JNum(0.21));
    Percentages.CreateRoundTrip(p, now);
    var f: Dicts.Dict<Json> := [("type", JStr("PercentageBucketer")), ("percentage", Percentages.ToDict(p))];
    assert f == ToDict(PercentageBucketer(p)).fields;
    CreateRoundTrip(PercentageBucketer(p), now);
  }
}
