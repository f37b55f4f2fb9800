/** A single check: a variable name, a configured value and an operator, parsed from a
  * keyword key of the form `variable` or `variable__symbol`. */
module Checks {
  import opened Wrappers
  import opened Values
  import Strings
  import Dicts
  import opened Operators

  datatype Check = Check(variable: string, value: Value, operator: Operator)

  /** `Check.check(v)`: the operator applied to the supplied value first and the
    * configured value second. */
  function Evaluate(c: Check, supplied: Value): (r: Result<bool>)
    ensures c.operator == Equality || c.operator == Negation ==> r.Ok?
    ensures c.operator == GreaterThan && supplied.VInt? && c.value.VInt? ==> r == Ok(supplied.i > c.value.i)
    ensures c.operator == LessThan && supplied.VInt? && c.value.VInt? ==> r == Ok(supplied.i < c.value.i)
    ensures c.operator == SetMembership && c.value.VList? ==>
              r == Ok(exists k :: 0 <= k < |c.value.items| && Equal(c.value.items[k], supplied))
  {
    Operators.Compare(c.operator, supplied, c.value)
  }

  /** `_parse_check_key`: a key that splits on "__" into exactly two parts is a
    * variable and an operator symbol; any other key is a variable compared for
    * equality. An unknown symbol raises InvalidSymbolError. */
  function ParseKey(key: string): (r: Result<(string, Operator)>)
    ensures r.Err? ==> r.error == InvalidSymbol
  {
    var parts := Strings.Split(key);
    if |parts| == 2 then
      var op :- Factory(Some(parts[1]));
      Ok((parts[0], op))
    else
      // Operator.factory(None) is always the equality operator.
      Ok((key, Equality))
  }

  /** `Check.factory(key, value)`. */
  function FromKey(key: string, value: Value): (r: Result<Check>)
    ensures r.Ok? ==> ParseKey(key) == Ok((r.value.variable, r.value.operator)) && r.value.value == value
    ensures r.Err? ==> ParseKey(key) == Err(r.error)
  {
    var (variable, op) :- ParseKey(key);
    Ok(Check(variable, value, op))
  }

  /** `make_check_key`: the variable alone when there is no symbol, otherwise the
    * variable and the symbol joined by the delimiter. */
  function MakeKey(variable: string, sym: Option<string>): (k: string)
    ensures sym.None? ==> k == variable
    ensures sym.Some? ==> k == Strings.Join([variable, sym.value])
  {
    match sym
    case None => variable
    case Some(s) => variable + Strings.Delimiter + s
  }

  /** The key a check is written under when a condition is rebuilt from its
    * dictionary form. */
  function KeyOf(c: Check): string {
    MakeKey(c.variable, Symbol(c.operator))
  }

  /** A parsed key reassembles into the key it came from. */
  lemma ParseKeyThenMakeKey(key: string)
    requires ParseKey(key).Ok?
    ensures MakeKey(ParseKey(key).value.0, Symbol(ParseKey(key).value.1)) == key
  {
    var parts := Strings.Split(key);
    if |parts| == 2 {
      assert Strings.Join(parts) == parts[0] + Strings.Delimiter + Strings.Join(parts[1..]);
    } else {
      FactoryOfSymbol(Equality);
    }
  }

  /** The variable names that survive a trip through a key: the delimiter cannot
    * occur in them, and they cannot end in '_' (the delimiter would then be found
    * one position early). */
  predicate KeySafe(variable: string) {
    Strings.NoDelimiter(variable) && !Strings.EndsWithUnderscore(variable)
  }

  /** A key made from a safe variable and any operator parses back to them. */
  lemma MakeKeyThenParseKey(variable: string, op: Operator)
    requires KeySafe(variable)
    ensures ParseKey(MakeKey(variable, Symbol(op))) == Ok((variable, op))
  {
    FactoryOfSymbol(op);
    match Symbol(op)
    case None =>
      assert Strings.Split(variable) == [variable];
    case Some(s) =>
      SymbolHasNoDelimiter(op);
      Strings.SplitJoinTwo(variable, s);
  }

  lemma SymbolHasNoDelimiter(op: Operator)
    requires Symbol(op).Some?
    ensures Strings.NoDelimiter(Symbol(op).value)
  {
    var s := Symbol(op).value;
    forall i | 0 <= i ensures !Strings.DelimiterAt(s, i) {
      assert s[0] != '_' && (|s| < 3 || s[2] != '_');
    }
  }

  /** Every key a check was parsed from is the key that check writes. */
  lemma FromKeyKeyOf(key: string, value: Value)
    requires FromKey(key, value).Ok?
    ensures KeyOf(FromKey(key, value).value) == key
  {
    ParseKeyThenMakeKey(key);
  }

  /** Two keys that parse to the same variable and operator are the same key. */
  lemma ParseKeyInjective(k1: string, k2: string)
    requires ParseKey(k1).Ok? && ParseKey(k1) == ParseKey(k2)
    ensures k1 == k2
  {
    ParseKeyThenMakeKey(k1);
    ParseKeyThenMakeKey(k2);
  }

  /** A bare variable is compared for equality. */
  lemma ParseBareKey()
    ensures ParseKey("foo") == Ok(("foo", Equality))
  {
    assert Strings.Split("foo") == ["foo"];
  }

  /** "foo" is a variable name that survives a trip through a key. */
  lemma FooIsKeySafe()
    ensures KeySafe("foo")
  {
    forall i | 0 <= i ensures !Strings.DelimiterAt("foo", i) {
    }
  }

  /** A key made of a safe variable, the delimiter and a delimiter-free suffix
    * names the operator whose symbol is the suffix, or is refused. */
  lemma ParseTwoPartKey(v: string, s: string)
    requires KeySafe(v) && Strings.NoDelimiter(s)
    ensures ParseKey(v + Strings.Delimiter + s)
         == match Factory(Some(s)) case Ok(op) => Ok((v, op)) case Err(e) => Err(e)
  {
    Strings.SplitJoinTwo(v, s);
  }

  /** A two-part key names its operator by the symbol after the delimiter. */
  lemma ParseGreaterThanKey()
    ensures ParseKey("foo__gt") == Ok(("foo", GreaterThan))
  {
    FooIsKeySafe();
    MakeKeyThenParseKey("foo", GreaterThan);
    assert MakeKey("foo", Symbol(GreaterThan)) == "foo__gt";
  }

  lemma ParseLessOrEqualKey()
    ensures ParseKey("foo" + Strings.Delimiter + "lte") == Ok(("foo", LessThanOrEqualTo))
  {
    FooIsKeySafe();
    MakeKeyThenParseKey("foo", LessThanOrEqualTo);
  }

  lemma ParseNotInKey()
    ensures ParseKey("foo" + Strings.Delimiter + "not_in") == Ok(("foo", NegatedSetMembership))
  {
    FooIsKeySafe();
    MakeKeyThenParseKey("foo", NegatedSetMembership);
  }

  /** The suffix `eq` is no operator's symbol, so `foo__eq` is refused. */
  lemma ParseEqSuffix()
    ensures ParseKey("foo" + Strings.Delimiter + "eq") == Err(InvalidSymbol)
  {
    FooIsKeySafe();
    forall i | 0 <= i ensures !Strings.DelimiterAt("eq", i) {
    }
    forall op: Operator ensures Symbol(op) != Some("eq") {
      if Symbol(op).Some? {
        assert Symbol(op).value[0] != 'e';
      }
    }
    ParseTwoPartKey("foo", "eq");
  }

  /** An empty suffix is no operator's symbol either: `foo__` is refused. */
  lemma ParseEmptySuffix()
    ensures ParseKey("foo" + Strings.Delimiter) == Err(InvalidSymbol)
  {
    FooIsKeySafe();
    assert Strings.NoDelimiter("");
    forall op: Operator ensures Symbol(op) != Some("") {
      if Symbol(op).Some? {
        assert |Symbol(op).value| > 0;
      }
    }
    ParseTwoPartKey("foo", "");
    assert "foo" + Strings.Delimiter + "" == "foo" + Strings.Delimiter;
  }

  /** A key with more than one delimiter does not fail: the whole key is the
    * variable, compared for equality. */
  lemma ParseThreePartKey()
    ensures ParseKey("a__b__gt") == Ok(("a__b__gt", Equality))
  {
    var k := "a__b__gt";
    assert Strings.DelimiterAt(k, 1);
    assert Strings.FindDelimiter(k) == Some(1);
    assert k[3..] == "b__gt";
    assert Strings.DelimiterAt("b__gt", 1);
    assert Strings.FindDelimiter("b__gt") == Some(1);
    assert |Strings.Split(k)| == 1 + |Strings.Split("b__gt")|;
    assert |Strings.Split("b__gt")| >= 2;
  }

  /** Evaluation puts the supplied value first: `foo__gt=5` admits `foo=11`, and
    * `foo__in=[1, 2, 3]` asks whether the supplied value is in the list. */
  lemma EvaluateExamples()
    ensures Evaluate(Check("foo", VInt(5), GreaterThan), VInt(11)) == Ok(true)
    ensures Evaluate(Check("foo", VInt(5), GreaterThan), VInt(3)) == Ok(false)
    ensures Evaluate(Check("foo", VList([VInt(1), VInt(2), VInt(3)]), SetMembership), VInt(2)) == Ok(true)
    ensures Evaluate(Check("foo", VList([VInt(1), VInt(2), VInt(3)]), SetMembership), VList([VInt(2)])) == Ok(false)
  {
    assert Equal(VList([VInt(1), VInt(2), VInt(3)]).items[1], VInt(2));
  }

  // The dictionary form.

  function SymbolToJson(sym: Option<string>): Json {
    match sym
    case None => JNull
    case Some(s) => JStr(s)
  }

  /** `Check.to_dict`. */
  function ToDict(c: Check): (j: Json)
    ensures j.JObj? && Dicts.Keys(j.fields) == ["variable", "value", "operator"]
  {
    JObj([("variable", JStr(c.variable)), ("value", ToJson(c.value)),
          ("operator", SymbolToJson(Symbol(c.operator)))])
  }

  /** Each field of the dictionary form holds what the check holds. */
  lemma ToDictFields(c: Check)
    ensures Require(ToDict(c).fields, "variable") == Ok(JStr(c.variable))
    ensures Require(ToDict(c).fields, "value") == Ok(ToJson(c.value))
    ensures Require(ToDict(c).fields, "operator") == Ok(SymbolToJson(Symbol(c.operator)))
  {
    var fields := ToDict(c).fields;
    assert fields[0].0 == "variable";
    assert fields[1].0 == "value" && fields[1].0 != "variable";
    assert fields[2].0 == "operator" && fields[2].0 != "variable" && fields[2].0 != "value";
  }

  /** The symbol an `operator` field names: None, a string, or (for a list or a
    * dictionary, which cannot be a map key) TypeError; any other value is not a
    * symbol of the map. */
  function SymbolFromJson(j: Json): Result<Option<string>> {
    match j
    case JNull => Ok(None)
    case JStr(s) => Ok(Some(s))
    case JArr(_) => Err(TypeError)
    case JObj(_) => Err(TypeError)
    case _ => Err(InvalidSymbol)
  }

  /** `Check.from_dict`: all three fields are required. */
  function FromDict(j: Json): (r: Result<Check>)
    ensures !j.JObj? ==> r == Err(TypeError)
    ensures j.JObj? && Require(j.fields, "variable").Err? ==> r == Err(KeyError)
    ensures r.Ok? ==> j.JObj? && Require(j.fields, "variable") == Ok(JStr(r.value.variable))
    ensures r.Ok? ==> Require(j.fields, "operator").Ok?
                      && SymbolFromJson(Require(j.fields, "operator").value) == Ok(Symbol(r.value.operator))
  {
    match j
    case JObj(fields) =>
      var variable :- Require(fields, "variable");
      var value :- Require(fields, "value");
      var operator :- Require(fields, "operator");
      var sym :- SymbolFromJson(operator);
      var op :- Factory(sym);
      if !variable.JStr? then Err(Unsupported)
      else
        var v :- FromJson(value);
        Ok(Check(variable.s, v, op))
    case _ => Err(TypeError)
  }

  /** Every check survives a trip through its dictionary form. */
  lemma DictRoundTrip(c: Check)
    ensures FromDict(ToDict(c)) == Ok(c)
  {
    ToDictFields(c);
    assert SymbolFromJson(SymbolToJson(Symbol(c.operator))) == Ok(Symbol(c.operator));
    JsonRoundTrip(c.value);
    FactoryOfSymbol(c.operator);
    ReadCheck(ToDict(c).fields, c.variable, ToJson(c.value), SymbolToJson(Symbol(c.operator)),
              Symbol(c.operator), c.operator, c.value);
  }

  /** A dictionary whose three fields read as a check's parts reads as that check. */
  lemma ReadCheck(fields: Dicts.Dict<Json>, variable: string, xj: Json, oj: Json,
                  sym: Option<string>, op: Operator, v: Value)
    requires Require(fields, "variable") == Ok(JStr(variable))
    requires Require(fields, "value") == Ok(xj)
    requires Require(fields, "operator") == Ok(oj)
    requires SymbolFromJson(oj) == Ok(sym) && Factory(sym) == Ok(op) && FromJson(xj) == Ok(v)
    ensures FromDict(JObj(fields)) == Ok(Check(variable, v, op))
  {
  }

}
