/** Python's insertion-ordered, string-keyed `dict`, as a sequence of entries: keyword
  * arguments, the defaultdict of a Condition, client data, the in-memory store and
  * the objects of the dictionary wire format all have this shape. */
module Dicts {
  import opened Wrappers
  import Strings

  type Dict<V> = seq<(string, V)>

  /** The keys, in insertion order. */
  function Keys<V>(d: Dict<V>): (ks: seq<string>)
    ensures |ks| == |d|
    ensures forall i :: 0 <= i < |d| ==> ks[i] == d[i].0
  {
    if |d| == 0 then [] else [d[0].0] + Keys(d[1..])
  }

  predicate DistinctKeys<V>(d: Dict<V>) {
    forall i, j :: 0 <= i < j < |d| ==> d[i].0 != d[j].0
  }

  /** `d.get(k)`: the value stored under `k`, if any. */
  function Get<V>(d: Dict<V>, k: string): (r: Option<V>)
    ensures r.None? <==> k !in Keys(d)
    ensures r.Some? ==> (k, r.value) in d
  {
    if |d| == 0 then None
    else if d[0].0 == k then Some(d[0].1)
    else Get(d[1..], k)
  }

  /** In a dictionary with distinct keys, `d.get(k)` is the value of the entry with
    * key `k`. */
  lemma {:induction false} GetDistinct<V>(d: Dict<V>, k: string, i: int)
    requires DistinctKeys(d) && 0 <= i < |d| && d[i].0 == k
    ensures Get(d, k) == Some(d[i].1)
  {
    if i > 0 {
      GetDistinct(d[1..], k, i - 1);
    }
  }

  /** `d.get(k)` is the value of the first entry with key `k`. */
  lemma {:induction false} GetFirst<V>(d: Dict<V>, k: string, i: int)
    requires 0 <= i < |d| && d[i].0 == k
    requires forall j :: 0 <= j < i ==> d[j].0 != k
    ensures Get(d, k) == Some(d[i].1)
  {
    if i > 0 {
      GetFirst(d[1..], k, i - 1);
    }
  }

  /** `d[k] = v`: an existing key keeps its position, a new key goes at the end. */
  function Put<V>(d: Dict<V>, k: string, v: V): Dict<V> {
    if |d| == 0 then [(k, v)]
    else if d[0].0 == k then [(k, v)] + d[1..]
    else [d[0]] + Put(d[1..], k, v)
  }

  /** After `d[k] = v`, `k` holds `v` and every other key holds what it held. */
  lemma {:induction false} PutGet<V>(d: Dict<V>, k: string, v: V)
    ensures Get(Put(d, k, v), k) == Some(v)
    ensures forall k' :: k' != k ==> Get(Put(d, k, v), k') == Get(d, k')
  {
    if |d| > 0 && d[0].0 != k {
      PutGet(d[1..], k, v);
    }
  }

  /** Writing an existing key keeps the key order; a new key is appended. */
  lemma {:induction false} PutKeys<V>(d: Dict<V>, k: string, v: V)
    ensures k in Keys(d) ==> Keys(Put(d, k, v)) == Keys(d)
    ensures k !in Keys(d) ==> Keys(Put(d, k, v)) == Keys(d) + [k]
  {
    if |d| > 0 && d[0].0 != k {
      PutKeys(d[1..], k, v);
      assert Keys(d) == [d[0].0] + Keys(d[1..]);
      assert Keys(Put(d, k, v)) == [d[0].0] + Keys(Put(d[1..], k, v));
    } else if |d| > 0 {
      assert Keys(Put(d, k, v)) == [k] + Keys(d[1..]);
      assert Keys(d) == [k] + Keys(d[1..]);
    }
  }

  lemma PutDistinct<V>(d: Dict<V>, k: string, v: V)
    requires DistinctKeys(d)
    ensures DistinctKeys(Put(d, k, v))
  {
    var r := Put(d, k, v);
    PutKeys(d, k, v);
    assert forall i :: 0 <= i < |d| ==> Keys(d)[i] == d[i].0;
    assert forall i :: 0 <= i < |r| ==> Keys(r)[i] == r[i].0;
  }

  /** Writing a key that is not yet present appends one entry. */
  lemma {:induction false} PutNew<V>(d: Dict<V>, k: string, v: V)
    requires k !in Keys(d)
    ensures Put(d, k, v) == d + [(k, v)]
  {
    if |d| > 0 {
      assert Keys(d) == [d[0].0] + Keys(d[1..]);
      PutNew(d[1..], k, v);
      assert d == [d[0]] + d[1..];
    }
  }

  /** A key appended as new is found with its value. */
  lemma {:induction false} GetAppended<V>(d: Dict<V>, k: string, v: V)
    requires k !in Keys(d)
    ensures Get(d + [(k, v)], k) == Some(v)
  {
    if |d| > 0 {
      assert Keys(d) == [d[0].0] + Keys(d[1..]);
      assert (d + [(k, v)])[1..] == d[1..] + [(k, v)];
      GetAppended(d[1..], k, v);
    }
  }

  /** Overwriting the last entry of a dictionary replaces its value in place. */
  lemma {:induction false} PutLast<V>(d: Dict<V>, k: string, x: V, y: V)
    requires k !in Keys(d)
    ensures Put(d + [(k, x)], k, y) == d + [(k, y)]
  {
    if |d| > 0 {
      assert Keys(d) == [d[0].0] + Keys(d[1..]);
      assert (d + [(k, x)])[1..] == d[1..] + [(k, x)];
      PutLast(d[1..], k, x, y);
      assert d == [d[0]] + d[1..];
    }
  }

  /** Every entry after a write is the written one or an entry that was there. */
  lemma {:induction false} PutEntries<V>(d: Dict<V>, k: string, v: V)
    requires DistinctKeys(d)
    ensures forall i :: 0 <= i < |Put(d, k, v)| ==>
      (Put(d, k, v)[i].0 == k && Put(d, k, v)[i].1 == v) || (Put(d, k, v)[i].0 != k && Put(d, k, v)[i] in d)
  {
    if |d| > 0 && d[0].0 != k {
      PutEntries(d[1..], k, v);
    } else if |d| > 0 {
      assert forall i :: 1 <= i < |d| ==> d[i].0 != k;
    }
  }

  lemma KeysConcat<V>(a: Dict<V>, b: Dict<V>)
    ensures Keys(a + b) == Keys(a) + Keys(b)
  {
  }

  lemma AppendDistinct<V>(d: Dict<V>, k: string, v: V)
    requires DistinctKeys(d) && k !in Keys(d)
    ensures DistinctKeys(d + [(k, v)])
  {
    assert forall i :: 0 <= i < |d| ==> Keys(d)[i] == d[i].0;
  }

  /** `del d[k]` when present; nothing otherwise. */
  function Remove<V>(d: Dict<V>, k: string): (r: Dict<V>)
    ensures Get(r, k) == None
    ensures forall k' :: k' != k ==> Get(r, k') == Get(d, k')
    ensures forall i :: 0 <= i < |r| ==> r[i] in d && r[i].0 != k
    ensures forall i :: 0 <= i < |d| && d[i].0 != k ==> d[i] in r
    ensures DistinctKeys(d) ==> DistinctKeys(r)
  {
    if |d| == 0 then []
    else
      var rest := Remove(d[1..], k);
      RemoveStep(d, k, rest);
      if d[0].0 == k then rest else [d[0]] + rest
  }

  /** One step of `Remove`: what the tail's removal promises carries over to the
    * whole dictionary. */
  lemma RemoveStep<V>(d: Dict<V>, k: string, rest: Dict<V>)
    requires |d| > 0
    requires Get(rest, k) == None
    requires forall k' :: k' != k ==> Get(rest, k') == Get(d[1..], k')
    requires forall i :: 0 <= i < |rest| ==> rest[i] in d[1..] && rest[i].0 != k
    requires forall i :: 0 <= i < |d[1..]| && d[1..][i].0 != k ==> d[1..][i] in rest
    requires DistinctKeys(d[1..]) ==> DistinctKeys(rest)
    ensures var r := if d[0].0 == k then rest else [d[0]] + rest;
      && Get(r, k) == None
      && (forall k' :: k' != k ==> Get(r, k') == Get(d, k'))
      && (forall i :: 0 <= i < |r| ==> r[i] in d && r[i].0 != k)
      && (forall i :: 0 <= i < |d| && d[i].0 != k ==> d[i] in r)
      && (DistinctKeys(d) ==> DistinctKeys(r))
  {
    var r := if d[0].0 == k then rest else [d[0]] + rest;
    RemoveStepGet(d, k, rest, r);
    RemoveStepElements(d, k, rest, r);
    if DistinctKeys(d) {
      RemoveStepDistinct(d, k, rest, r);
    }
  }

  lemma RemoveStepGet<V>(d: Dict<V>, k: string, rest: Dict<V>, r: Dict<V>)
    requires |d| > 0 && r == if d[0].0 == k then rest else [d[0]] + rest
    requires Get(rest, k) == None
    requires forall k' :: k' != k ==> Get(rest, k') == Get(d[1..], k')
    ensures Get(r, k) == None
    ensures forall k' :: k' != k ==> Get(r, k') == Get(d, k')
  {
    if d[0].0 != k {
      assert r[1..] == rest;
    }
  }

  lemma RemoveStepElements<V>(d: Dict<V>, k: string, rest: Dict<V>, r: Dict<V>)
    requires |d| > 0 && r == if d[0].0 == k then rest else [d[0]] + rest
    requires forall i :: 0 <= i < |rest| ==> rest[i] in d[1..] && rest[i].0 != k
    requires forall i :: 0 <= i < |d[1..]| && d[1..][i].0 != k ==> d[1..][i] in rest
    ensures forall i :: 0 <= i < |r| ==> r[i] in d && r[i].0 != k
    ensures forall i :: 0 <= i < |d| && d[i].0 != k ==> d[i] in r
  {
    forall i | 0 <= i < |r| ensures r[i] in d && r[i].0 != k {
      if d[0].0 != k && i == 0 {
      } else {
        var j := if d[0].0 == k then i else i - 1;
        assert r[i] == rest[j];
        assert rest[j] in d[1..];
      }
    }
    forall i | 0 <= i < |d| && d[i].0 != k ensures d[i] in r {
      if i > 0 {
        assert d[i] == d[1..][i - 1];
        assert d[i] in rest;
      }
    }
  }

  lemma RemoveStepDistinct<V>(d: Dict<V>, k: string, rest: Dict<V>, r: Dict<V>)
    requires |d| > 0 && r == if d[0].0 == k then rest else [d[0]] + rest
    requires forall i :: 0 <= i < |rest| ==> rest[i] in d[1..] && rest[i].0 != k
    requires DistinctKeys(d[1..]) ==> DistinctKeys(rest)
    requires DistinctKeys(d)
    ensures DistinctKeys(r)
  {
    assert DistinctKeys(d[1..]);
    if d[0].0 != k {
      forall i | 0 <= i < |rest| ensures rest[i].0 != d[0].0 {
        var j :| 0 <= j < |d[1..]| && d[1..][j] == rest[i];
        assert d[j + 1] == rest[i];
      }
    }
  }

  /** Removing a key that is not there changes nothing. */
  lemma {:induction false} RemoveAbsent<V>(d: Dict<V>, k: string)
    requires k !in Keys(d)
    ensures Remove(d, k) == d
  {
    if |d| > 0 {
      assert Keys(d[1..]) == Keys(d)[1..];
      RemoveAbsent(d[1..], k);
    }
  }

  /** `d.update(e)`: every entry of `e` is written into `d`, in order. */
  function Update<V>(d: Dict<V>, e: Dict<V>): Dict<V>
    decreases |e|
  {
    if |e| == 0 then d else Update(Put(d, e[0].0, e[0].1), e[1..])
  }

  /** After `d.update(e)`, a key of `e` holds its value in `e` (the last one, when
    * `e` has distinct keys), and every other key holds its value in `d`. */
  lemma {:induction false} UpdateGet<V>(d: Dict<V>, e: Dict<V>, k: string)
    ensures k !in Keys(e) ==> Get(Update(d, e), k) == Get(d, k)
    ensures DistinctKeys(e) && k in Keys(e) ==> Get(Update(d, e), k) == Get(e, k)
    decreases |e|
  {
    if |e| > 0 {
      PutGet(d, e[0].0, e[0].1);
      UpdateGet(Put(d, e[0].0, e[0].1), e[1..], k);
      assert Keys(e) == [e[0].0] + Keys(e[1..]);
      assert DistinctKeys(e) ==> DistinctKeys(e[1..]) && e[0].0 !in Keys(e[1..]);
    }
  }

  /** Updating with two dictionaries one after the other is updating with their
    * entries in sequence. */
  lemma {:induction false} UpdateConcat<V>(d: Dict<V>, a: Dict<V>, b: Dict<V>)
    ensures Update(d, a + b) == Update(Update(d, a), b)
    decreases |a|
  {
    if |a| > 0 {
      assert (a + b)[1..] == a[1..] + b;
      UpdateConcat(Put(d, a[0].0, a[0].1), a[1..], b);
    } else {
      assert a + b == b;
    }
  }

  /** Updating with entries whose keys are distinct and new appends them. */
  lemma {:induction false} UpdateFresh<V>(d: Dict<V>, e: Dict<V>)
    requires DistinctKeys(e)
    requires forall i :: 0 <= i < |e| ==> e[i].0 !in Keys(d)
    ensures Update(d, e) == d + e
    decreases |e|
  {
    if |e| == 0 {
      assert d + e == d;
    } else {
      FreshTail(d, e);
      UpdateFresh(d + [e[0]], e[1..]);
      UpdateFreshStep(d, e);
    }
  }

  lemma UpdateFreshStep<V>(d: Dict<V>, e: Dict<V>)
    requires |e| > 0 && e[0].0 !in Keys(d)
    requires Update(d + [e[0]], e[1..]) == (d + [e[0]]) + e[1..]
    ensures Update(d, e) == d + e
  {
    UpdateFirstNew(d, e);
    ConcatFirst(d, e);
  }

  lemma UpdateFirstNew<V>(d: Dict<V>, e: Dict<V>)
    requires |e| > 0 && e[0].0 !in Keys(d)
    ensures Update(d, e) == Update(d + [e[0]], e[1..])
  {
    PutNew(d, e[0].0, e[0].1);
  }

  lemma ConcatFirst<V>(d: Dict<V>, e: Dict<V>)
    requires |e| > 0
    ensures (d + [e[0]]) + e[1..] == d + e
  {
  }

  /** Moving the first fresh entry into the dictionary leaves the rest fresh. */
  lemma FreshTail<V>(d: Dict<V>, e: Dict<V>)
    requires DistinctKeys(e) && |e| > 0
    requires forall i :: 0 <= i < |e| ==> e[i].0 !in Keys(d)
    ensures DistinctKeys(e[1..])
    ensures forall i :: 0 <= i < |e[1..]| ==> e[1..][i].0 !in Keys(d + [e[0]])
  {
    KeysConcat(d, [e[0]]);
    assert Keys(d + [e[0]]) == Keys(d) + [e[0].0];
    forall i | 0 <= i < |e[1..]| ensures e[1..][i].0 !in Keys(d + [e[0]]) {
      assert e[1..][i] == e[i + 1];
    }
  }

  // Sorting by key, as `sorted(d.items(), key=lambda x: x[0])` and `sorted(d.keys())`.

  predicate SortedByKey<V>(s: Dict<V>) {
    forall i, j :: 0 <= i < j < |s| ==> Strings.Less(s[i].0, s[j].0)
  }

  function InsertByKey<V>(e: (string, V), s: Dict<V>): (r: Dict<V>)
    requires SortedByKey(s)
    requires forall i :: 0 <= i < |s| ==> s[i].0 != e.0
    ensures |r| == |s| + 1
    ensures forall i :: 0 <= i < |r| ==> r[i] == e || r[i] in s
    ensures SortedByKey(r)
  {
    if |s| == 0 then [e]
    else if Strings.Less(e.0, s[0].0) then
      assert forall j :: 0 <= j < |s| ==> Strings.Less(e.0, s[j].0) by {
        forall j | 0 < j < |s| ensures Strings.Less(e.0, s[j].0) {
          Strings.LessTransitive(e.0, s[0].0, s[j].0);
        }
      }
      [e] + s
    else
      Strings.LessTotal(e.0, s[0].0);
      var t := InsertByKey(e, s[1..]);
      assert forall i :: 0 <= i < |t| ==> Strings.Less(s[0].0, t[i].0);
      [s[0]] + t
  }

  lemma {:induction false} InsertByKeyElements<V>(e: (string, V), s: Dict<V>)
    requires SortedByKey(s)
    requires forall i :: 0 <= i < |s| ==> s[i].0 != e.0
    ensures multiset(InsertByKey(e, s)) == multiset(s) + multiset{e}
  {
    if |s| > 0 && !Strings.Less(e.0, s[0].0) {
      InsertByKeyElements(e, s[1..]);
      assert s == [s[0]] + s[1..];
    }
  }

  /** Insertion sort by key; the keys must be distinct, as a dict's are. */
  function SortByKey<V>(d: Dict<V>): (r: Dict<V>)
    requires DistinctKeys(d)
    ensures |r| == |d|
    ensures forall i :: 0 <= i < |r| ==> r[i] in d
    ensures SortedByKey(r)
  {
    if |d| == 0 then []
    else
      var t := SortByKey(d[1..]);
      TailKeysAvoidHead(d, t);
      InsertByKey(d[0], t)
  }

  lemma TailKeysAvoidHead<V>(d: Dict<V>, t: Dict<V>)
    requires DistinctKeys(d) && |d| > 0
    requires forall i :: 0 <= i < |t| ==> t[i] in d[1..]
    ensures forall i :: 0 <= i < |t| ==> t[i].0 != d[0].0
  {
    forall i | 0 <= i < |t| ensures t[i].0 != d[0].0 {
      var j :| 0 <= j < |d[1..]| && d[1..][j] == t[i];
      assert d[j + 1] == t[i];
    }
  }

  lemma {:induction false} SortByKeyElements<V>(d: Dict<V>)
    requires DistinctKeys(d)
    ensures multiset(SortByKey(d)) == multiset(d)
  {
    if |d| > 0 {
      var t := SortByKey(d[1..]);
      SortByKeyElements(d[1..]);
      TailKeysAvoidHead(d, t);
      InsertByKeyElements(d[0], t);
      assert d == [d[0]] + d[1..];
    }
  }

  lemma SortedByKeyDistinct<V>(s: Dict<V>)
    requires SortedByKey(s)
    ensures DistinctKeys(s)
  {
    forall i, j | 0 <= i < j < |s| ensures s[i].0 != s[j].0 {
      assert Strings.Less(s[i].0, s[j].0);
    }
  }

  /** The first entry of a sorted sequence has the least key. */
  lemma HeadLeast<V>(a: Dict<V>, x: (string, V))
    requires SortedByKey(a) && x in a
    ensures x == a[0] || Strings.Less(a[0].0, x.0)
  {
    var i :| 0 <= i < |a| && a[i] == x;
  }

  /** A sorted sequence of entries is determined by its elements: two sorted
    * sequences with the same elements are equal. */
  lemma {:induction false} SortedUnique<V>(a: Dict<V>, b: Dict<V>)
    requires SortedByKey(a) && SortedByKey(b)
    requires multiset(a) == multiset(b)
    ensures a == b
    decreases |a|
  {
    assert |b| == |multiset(b)| == |multiset(a)| == |a|;
    if |a| > 0 {
      SameHead(a, b);
      SortedTail(a);
      SortedTail(b);
      SortedUnique(a[1..], b[1..]);
      assert a == [a[0]] + a[1..] && b == [b[0]] + b[1..];
    }
  }

  /** Two non-empty sorted sequences with the same elements start alike. */
  lemma SameHead<V>(a: Dict<V>, b: Dict<V>)
    requires SortedByKey(a) && SortedByKey(b) && |a| > 0 && |b| > 0
    requires multiset(a) == multiset(b)
    ensures a[0] == b[0]
  {
    assert a[0] in multiset(b) && b[0] in multiset(a);
    HeadLeast(a, b[0]);
    HeadLeast(b, a[0]);
    Strings.CmpAntisymmetric(a[0].0, b[0].0);
  }

  /** The tail of a non-empty sorted sequence is sorted and holds the other
    * elements. */
  lemma SortedTail<V>(a: Dict<V>)
    requires SortedByKey(a) && |a| > 0
    ensures SortedByKey(a[1..])
    ensures multiset(a[1..]) == multiset(a) - multiset{a[0]}
  {
    assert a == [a[0]] + a[1..];
  }

  /** Sorting forgets the insertion order: dictionaries with the same entries sort
    * to the same sequence. */
  lemma SortByKeyOrderIndependent<V>(d: Dict<V>, e: Dict<V>)
    requires DistinctKeys(d) && DistinctKeys(e)
    requires multiset(d) == multiset(e)
    ensures SortByKey(d) == SortByKey(e)
  {
    SortByKeyElements(d);
    SortByKeyElements(e);
    SortedUnique(SortByKey(d), SortByKey(e));
  }
}
