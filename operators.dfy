/** The eight comparison operators a check can use, their symbols, and the factory
  * that looks an operator up by its symbol. Every operator compares the value
  * supplied by the caller (`expected`) with the value configured in the check
  * (`actual`), in that order. */
module Operators {
  import opened Wrappers
  import opened Values

  datatype Operator =
    | Equality
    | Negation
    | GreaterThan
    | GreaterThanOrEqualTo
    | LessThan
    | LessThanOrEqualTo
    | SetMembership
    | NegatedSetMembership

  /** The SYMBOL of each operator; equality has none, and is what a bare variable
    * key resolves to. */
  function Symbol(op: Operator): Option<string> {
    match op
    case Equality => None
    case Negation => Some("ne")
    case GreaterThan => Some("gt")
    case GreaterThanOrEqualTo => Some("gte")
    case LessThan => Some("lt")
    case LessThanOrEqualTo => Some("lte")
    case SetMembership => Some("in")
    case NegatedSetMembership => Some("not_in")
  }

  /** The operators in the order of the operator map. */
  const All: seq<Operator> := [Equality, GreaterThan, GreaterThanOrEqualTo, LessThan,
    LessThanOrEqualTo, Negation, SetMembership, NegatedSetMembership]

  /** The first operator of `ops` whose symbol is `sym`. */
  function Lookup(sym: Option<string>, ops: seq<Operator>): (r: Option<Operator>)
    ensures r.Some? ==> r.value in ops && Symbol(r.value) == sym
    ensures r.None? ==> forall i :: 0 <= i < |ops| ==> Symbol(ops[i]) != sym
  {
    if |ops| == 0 then None
    else if Symbol(ops[0]) == sym then Some(ops[0])
    else Lookup(sym, ops[1..])
  }

  /** `Operator.factory`: the operator with the given symbol, or InvalidSymbolError. */
  function Factory(sym: Option<string>): (r: Result<Operator>)
    ensures r.Ok? ==> Symbol(r.value) == sym
    ensures r.Err? ==> r.error == InvalidSymbol && forall op: Operator :: Symbol(op) != sym
  {
    match Lookup(sym, All)
    case Some(op) => Ok(op)
    case None =>
      AllOperatorsListed();
      Err(InvalidSymbol)
  }

  /** Every operator has an entry in the operator map. */
  lemma AllOperatorsListed()
    ensures forall op: Operator :: op in All
  {
    forall op: Operator ensures op in All {
      match op
      case Equality => assert All[0] == op;
      case GreaterThan => assert All[1] == op;
      case GreaterThanOrEqualTo => assert All[2] == op;
      case LessThan => assert All[3] == op;
      case LessThanOrEqualTo => assert All[4] == op;
      case Negation => assert All[5] == op;
      case SetMembership => assert All[6] == op;
      case NegatedSetMembership => assert All[7] == op;
    }
  }

  /** Each operator's symbol leads the factory back to that operator. */
  lemma FactoryOfSymbol(op: Operator)
    ensures Factory(Symbol(op)) == Ok(op)
  {
    var r := Factory(Symbol(op));
    assert r.Ok?;
    SymbolsDistinct();
  }

  /** No two operators share a symbol, and the map holds exactly eight entries. */
  lemma SymbolsDistinct()
    ensures forall a: Operator, b: Operator :: Symbol(a) == Symbol(b) ==> a == b
    ensures |All| == 8 && forall i, j :: 0 <= i < j < |All| ==> Symbol(All[i]) != Symbol(All[j])
  {
  }

  /** `compare(expected, actual)`; the ordering and membership operators raise
    * TypeError where Python does. */
  function Compare(op: Operator, expected: Value, actual: Value): Result<bool> {
    match op
    case Equality => Ok(Equal(expected, actual))
    case Negation => Ok(!Equal(expected, actual))
    case GreaterThan => Values.Compare(Greater, expected, actual)
    case GreaterThanOrEqualTo => Values.Compare(GreaterOrEqual, expected, actual)
    case LessThan => Values.Compare(Less, expected, actual)
    case LessThanOrEqualTo => Values.Compare(LessOrEqual, expected, actual)
    case SetMembership => Contains(actual, expected)
    case NegatedSetMembership =>
      match Contains(actual, expected)
      case Ok(b) => Ok(!b)
      case Err(e) => Err(e)
  }

  function Not(r: Result<bool>): Result<bool> {
    match r
    case Ok(b) => Ok(!b)
    case Err(e) => Err(e)
  }

  /** Equality never raises and does not depend on the order of its arguments. */
  lemma EqualitySymmetric(x: Value, y: Value)
    ensures Compare(Equality, x, y) == Compare(Equality, y, x)
    ensures Compare(Equality, x, y).Ok?
  {
    EqualSymmetric(x, y);
  }

  /** Negation is the exact complement of equality. */
  lemma NegationComplementsEquality(x: Value, y: Value)
    ensures Compare(Negation, x, y) == Not(Compare(Equality, x, y))
  {
  }

  /** If `x > y` holds then `y > x` does not. */
  lemma GreaterThanAsymmetric(x: Value, y: Value)
    requires Compare(GreaterThan, x, y) == Ok(true)
    ensures Compare(GreaterThan, y, x) == Ok(false)
  {
    OrderAntisymmetric(x, y);
  }

  /** `x < y` is `y > x`, including when the comparison raises. */
  lemma LessThanIsConverseOfGreaterThan(x: Value, y: Value)
    ensures Compare(LessThan, x, y) == Compare(GreaterThan, y, x)
  {
    OrderAntisymmetric(x, y);
  }

  /** `x <= y` is `y >= x`. */
  lemma LessOrEqualIsConverseOfGreaterOrEqual(x: Value, y: Value)
    ensures Compare(LessThanOrEqualTo, x, y) == Compare(GreaterThanOrEqualTo, y, x)
  {
    OrderAntisymmetric(x, y);
  }

  /** Where the values can be ordered, `x >= y` is `x > y` or `x == y`. */
  lemma GreaterOrEqualIsGreaterOrEqual(x: Value, y: Value)
    requires Order(x, y).Ok?
    ensures Compare(GreaterThanOrEqualTo, x, y)
      == Ok(Compare(GreaterThan, x, y).value || Compare(Equality, x, y).value)
  {
    OrderZeroIsEqual(x, y);
  }

  /** Where the values can be ordered, `x <= y` is the negation of `x > y`. */
  lemma LessOrEqualIsNotGreater(x: Value, y: Value)
    requires Order(x, y).Ok?
    ensures Compare(LessThanOrEqualTo, x, y) == Not(Compare(GreaterThan, x, y))
  {
  }

  /** On integers the ordering operators are the integer comparisons. */
  lemma IntegerComparisons(a: int, b: int)
    ensures Compare(GreaterThan, VInt(a), VInt(b)) == Ok(a > b)
    ensures Compare(GreaterThanOrEqualTo, VInt(a), VInt(b)) == Ok(a >= b)
    ensures Compare(LessThan, VInt(a), VInt(b)) == Ok(a < b)
    ensures Compare(LessThanOrEqualTo, VInt(a), VInt(b)) == Ok(a <= b)
    ensures Compare(Equality, VInt(a), VInt(b)) == Ok(a == b)
  {
  }

  /** Membership in a list: `x in coll` holds exactly when some element equals `x`. */
  lemma SetMembershipInList(x: Value, items: seq<Value>)
    ensures Compare(SetMembership, x, VList(items)) == Ok(exists i :: 0 <= i < |items| && Equal(items[i], x))
    ensures |items| == 0 ==> Compare(SetMembership, x, VList(items)) == Ok(false)
  {
  }

  /** `not in` is the exact complement of `in`, including when it raises. */
  lemma NegatedSetMembershipComplements(x: Value, coll: Value)
    ensures Compare(NegatedSetMembership, x, coll) == Not(Compare(SetMembership, x, coll))
  {
  }

  /** The comparisons that the operator tests spell out. */
  lemma OperatorExamples()
    ensures Compare(Equality, VInt(1), VInt(1)) == Ok(true)
    ensures Compare(Equality, VInt(1), VInt(2)) == Ok(false)
    ensures Compare(Negation, VInt(2), VInt(1)) == Ok(true)
    ensures Compare(Negation, VInt(1), VInt(1)) == Ok(false)
    ensures Compare(GreaterThan, VInt(2), VInt(1)) == Ok(true)
    ensures Compare(GreaterThan, VInt(1), VInt(2)) == Ok(false)
    ensures Compare(GreaterThanOrEqualTo, VInt(1), VInt(1)) == Ok(true)
    ensures Compare(LessThan, VInt(1), VInt(2)) == Ok(true)
    ensures Compare(LessThanOrEqualTo, VInt(2), VInt(1)) == Ok(false)
  {
  }

  /** The membership tests the operator tests spell out. */
  lemma MembershipExamples()
    ensures Compare(SetMembership, VInt(1), VList([VInt(1), VInt(2), VInt(3)])) == Ok(true)
    ensures Compare(SetMembership, VInt(1), VList([VInt(2), VInt(3), VInt(4)])) == Ok(false)
    ensures Compare(NegatedSetMembership, VInt(4), VList([VInt(1), VInt(2), VInt(3)])) == Ok(true)
    ensures Compare(NegatedSetMembership, VInt(2), VList([VInt(2), VInt(3), VInt(4)])) == Ok(false)
  {
    assert Equal(VList([VInt(1), VInt(2), VInt(3)]).items[0], VInt(1));
    assert Equal(VList([VInt(2), VInt(3), VInt(4)]).items[0], VInt(2));
  }
}
