/** The values the library handles: the attribute values supplied to and configured in
  * checks (`Value`), and the dictionary wire format that `to_dict` produces and
  * `from_dict` reads (`Json`). The comparisons follow Python's semantics for these
  * kinds of values. */
module Values {
  import opened Wrappers
  import Strings
  import Dicts

  /** A value supplied for, or configured in, a check: Python's None, bool, int, str
    * and list. */
  datatype Value =
    | VNone
    | VBool(b: bool)
    | VInt(i: int)
    | VStr(s: string)
    | VList(items: seq<Value>)

  /** A JSON-compatible dictionary-level value, objects keeping their key order. */
  datatype Json =
    | JNull
    | JBool(b: bool)
    | JInt(i: int)
    | JNum(r: real)
    | JStr(s: string)
    | JArr(items: seq<Json>)
    | JObj(fields: Dicts.Dict<Json>)

  function Sign(x: int): (s: int)
    ensures s == -1 || s == 0 || s == 1
    ensures (s < 0 <==> x < 0) && (s == 0 <==> x == 0) && (s > 0 <==> x > 0)
  {
    if x < 0 then -1 else if x == 0 then 0 else 1
  }

  function BoolToInt(b: bool): int {
    if b then 1 else 0
  }

  /** Whether the value is a number to Python: an int, or a bool (a subclass of int). */
  predicate IsNumber(v: Value) {
    v.VInt? || v.VBool?
  }

  /** The integer a number stands for: a bool counts as 0 or 1. */
  function NumberOf(v: Value): int
    requires IsNumber(v)
  {
    if v.VInt? then v.i else BoolToInt(v.b)
  }

  /** Python's `a == b`: numbers compare by value (so `True == 1`), lists element by
    * element, and values of unrelated kinds are never equal. */
  predicate Equal(a: Value, b: Value)
    decreases a, b
  {
    if IsNumber(a) && IsNumber(b) then NumberOf(a) == NumberOf(b)
    else match (a, b)
      case (VNone, VNone) => true
      case (VStr(x), VStr(y)) => x == y
      case (VList(xs), VList(ys)) => EqualLists(xs, ys)
      case _ => false
  }

  predicate EqualLists(xs: seq<Value>, ys: seq<Value>)
    decreases xs, ys
  {
    |xs| == |ys| && (|xs| == 0 || (Equal(xs[0], ys[0]) && EqualLists(xs[1..], ys[1..])))
  }

  lemma {:induction false} EqualSymmetric(a: Value, b: Value)
    ensures Equal(a, b) == Equal(b, a)
    decreases a, b
  {
    if !(IsNumber(a) && IsNumber(b)) {
      match (a, b)
      case (VList(xs), VList(ys)) => EqualListsSymmetric(xs, ys);
      case _ =>
    }
  }

  lemma {:induction false} EqualListsSymmetric(xs: seq<Value>, ys: seq<Value>)
    ensures EqualLists(xs, ys) == EqualLists(ys, xs)
    decreases xs, ys
  {
    if |xs| == |ys| && |xs| > 0 {
      EqualSymmetric(xs[0], ys[0]);
      EqualListsSymmetric(xs[1..], ys[1..]);
    }
  }

  /** Python's ordering of two values as -1, 0 or 1, or the TypeError Python raises
    * for values it cannot order (None, or values of unrelated kinds). Lists compare
    * at their first element that differs, and by length when one is a prefix of
    * the other. */
  function Order(a: Value, b: Value): Result<int>
    decreases a, b
  {
    if IsNumber(a) && IsNumber(b) then Ok(Sign(NumberOf(a) - NumberOf(b)))
    else match (a, b)
      case (VStr(x), VStr(y)) => Ok(Strings.Cmp(x, y))
      case (VList(xs), VList(ys)) => OrderLists(xs, ys)
      case _ => Err(TypeError)
  }

  function OrderLists(xs: seq<Value>, ys: seq<Value>): Result<int>
    decreases xs, ys
  {
    if |xs| == 0 || |ys| == 0 then Ok(Sign(|xs| - |ys|))
    else if Equal(xs[0], ys[0]) then OrderLists(xs[1..], ys[1..])
    else Order(xs[0], ys[0])
  }

  /** The outcome of comparing in the other direction. */
  function Flip(r: Result<int>): Result<int> {
    match r
    case Ok(c) => Ok(-c)
    case Err(e) => Err(e)
  }

  /** Comparing `b` with `a` gives the opposite answer to comparing `a` with `b`, and
    * raises exactly when that raises. */
  lemma {:induction false} OrderAntisymmetric(a: Value, b: Value)
    ensures Order(b, a) == Flip(Order(a, b))
    decreases a, b
  {
    if !(IsNumber(a) && IsNumber(b)) {
      match (a, b)
      case (VStr(x), VStr(y)) => Strings.CmpAntisymmetric(x, y);
      case (VList(xs), VList(ys)) => OrderListsAntisymmetric(xs, ys);
      case _ =>
    }
  }

  lemma {:induction false} OrderListsAntisymmetric(xs: seq<Value>, ys: seq<Value>)
    ensures OrderLists(ys, xs) == Flip(OrderLists(xs, ys))
    decreases xs, ys
  {
    if |xs| > 0 && |ys| > 0 {
      EqualSymmetric(xs[0], ys[0]);
      if Equal(xs[0], ys[0]) {
        OrderListsAntisymmetric(xs[1..], ys[1..]);
      } else {
        OrderAntisymmetric(xs[0], ys[0]);
      }
    }
  }

  /** Where two values can be ordered, they are ordered level exactly when they are
    * equal. */
  lemma {:induction false} OrderZeroIsEqual(a: Value, b: Value)
    requires Order(a, b).Ok?
    ensures Order(a, b).value == 0 <==> Equal(a, b)
    decreases a, b
  {
    if !(IsNumber(a) && IsNumber(b)) {
      match (a, b)
      case (VList(xs), VList(ys)) => OrderListsZeroIsEqual(xs, ys);
      case _ =>
    }
  }

  lemma {:induction false} OrderListsZeroIsEqual(xs: seq<Value>, ys: seq<Value>)
    requires OrderLists(xs, ys).Ok?
    ensures OrderLists(xs, ys).value == 0 <==> EqualLists(xs, ys)
    decreases xs, ys
  {
    if |xs| > 0 && |ys| > 0 {
      if Equal(xs[0], ys[0]) {
        OrderListsZeroIsEqual(xs[1..], ys[1..]);
      } else {
        OrderZeroIsEqual(xs[0], ys[0]);
      }
    }
  }

  /** The four ordering comparisons. */
  datatype Relation = Less | LessOrEqual | Greater | GreaterOrEqual

  predicate Holds(rel: Relation, c: int) {
    match rel
    case Less => c < 0
    case LessOrEqual => c <= 0
    case Greater => c > 0
    case GreaterOrEqual => c >= 0
  }

  /** Python's `a < b`, `a <= b`, `a > b` or `a >= b`. */
  function Compare(rel: Relation, a: Value, b: Value): Result<bool> {
    match Order(a, b)
    case Ok(c) => Ok(Holds(rel, c))
    case Err(e) => Err(e)
  }

  /** Python's `x in coll`: list membership by `==`, or substring when both are strings;
    * any other kind of collection raises TypeError. */
  function Contains(coll: Value, x: Value): Result<bool> {
    match coll
    case VList(items) => Ok(exists i :: 0 <= i < |items| && Equal(items[i], x))
    case VStr(s) => if x.VStr? then Ok(Strings.IsSubstring(x.s, s)) else Err(TypeError)
    case _ => Err(TypeError)
  }

  // Conversion between check values and the wire format.

  function ToJson(v: Value): Json
    decreases v
  {
    match v
    case VNone => JNull
    case VBool(b) => JBool(b)
    case VInt(i) => JInt(i)
    case VStr(s) => JStr(s)
    case VList(items) => JArr(ToJsonList(items))
  }

  function ToJsonList(vs: seq<Value>): (js: seq<Json>)
    ensures |js| == |vs|
    decreases vs
  {
    if |vs| == 0 then [] else [ToJson(vs[0])] + ToJsonList(vs[1..])
  }

  /** Reads a check value; floating-point numbers and dictionaries are outside the
    * values this model represents. */
  function FromJson(j: Json): Result<Value>
    decreases j
  {
    match j
    case JNull => Ok(VNone)
    case JBool(b) => Ok(VBool(b))
    case JInt(i) => Ok(VInt(i))
    case JStr(s) => Ok(VStr(s))
    case JArr(items) =>
      var vs :- FromJsonList(items);
      Ok(VList(vs))
    case _ => Err(Unsupported)
  }

  function FromJsonList(js: seq<Json>): Result<seq<Value>>
    decreases js
  {
    if |js| == 0 then Ok([])
    else
      var h :- FromJson(js[0]);
      var t :- FromJsonList(js[1..]);
      Ok([h] + t)
  }

  /** Every check value survives a trip through the wire format. */
  lemma {:induction false} JsonRoundTrip(v: Value)
    ensures FromJson(ToJson(v)) == Ok(v)
    decreases v
  {
    match v
    case VList(items) => JsonListRoundTrip(items);
    case _ =>
  }

  lemma {:induction false} JsonListRoundTrip(vs: seq<Value>)
    ensures FromJsonList(ToJsonList(vs)) == Ok(vs)
    decreases vs
  {
    if |vs| > 0 {
      JsonRoundTrip(vs[0]);
      JsonListRoundTrip(vs[1..]);
      assert ToJsonList(vs)[1..] == ToJsonList(vs[1..]);
      assert vs == [vs[0]] + vs[1..];
    }
  }

  // Reading the wire format.

  /** `isinstance(j, numbers.Number)`, as a real; a bool is a number worth 0 or 1. */
  function AsNumber(j: Json): Option<real> {
    match j
    case JBool(b) => Some(BoolToInt(b) as real)
    case JInt(i) => Some(i as real)
    case JNum(r) => Some(r)
    case _ => None
  }

  /** `fields[key]`: a missing key raises KeyError. */
  function Require(fields: Dicts.Dict<Json>, key: string): Result<Json> {
    match Dicts.Get(fields, key)
    case Some(j) => Ok(j)
    case None => Err(KeyError)
  }

  /** `fields.get(key)`: a missing key reads as None. */
  function GetOrNull(fields: Dicts.Dict<Json>, key: string): Json {
    match Dicts.Get(fields, key)
    case Some(j) => j
    case None => JNull
  }

  /** Python's truth value of a wire-format value. */
  predicate Truthy(j: Json) {
    match j
    case JNull => false
    case JBool(b) => b
    case JInt(i) => i != 0
    case JNum(r) => r != 0.0
    case JStr(s) => |s| > 0
    case JArr(items) => |items| > 0
    case JObj(fields) => |fields| > 0
  }
}
