/** Percentages: a static value, or a linear ramp from an initial to a final value
  * over a number of seconds, read at a given moment; their comparisons with plain
  * numbers; their dictionary form and the factory that reads it back. The clock is
  * an integer number of seconds passed in by the caller. */
module Percentages {
  import opened Wrappers
  import opened Values
  import Dicts

  const SecondsPerDay: int := 86400

  datatype Percentage =
    | Static(value: Json)
    | LinearRamp(initial: real, final: real, duration: int, start: int)

  /** `Percentage()`: the default static value is 1.0. */
  const Full: Percentage := Static(JNum(1.0))

  /** `get_type`. */
  function TypeName(p: Percentage): string {
    match p
    case Static(_) => "Percentage"
    case LinearRamp(_, _, _, _) => "LinearRampPercentage"
  }

  function Min(a: real, b: real): real {
    if a <= b then a else b
  }

  /** `(final - initial) / ramp_duration`. */
  function Slope(initial: real, final: real, duration: int): real
    requires duration != 0
  {
    (final - initial) / (duration as real)
  }

  // The ramp as the code computes it.

  /** `dt`: `(now - initial_time).seconds`, the seconds field of a timedelta, which
    * is the elapsed time modulo one day. */
  function Dt(start: int, now: int): (dt: int)
    ensures 0 <= dt < SecondsPerDay
    ensures (now - start - dt) % SecondsPerDay == 0
    ensures 0 <= now - start < SecondsPerDay ==> dt == now - start
  {
    (now - start) % SecondsPerDay
  }

  /** `LinearRampPercentage.value` as written, for a given `dt`: the final value when
    * the duration is zero, otherwise the line through the initial value capped at
    * the final value. */
  function RampAsWritten(initial: real, final: real, duration: int, dt: int): (v: real)
    ensures v <= final
    ensures duration == 0 ==> v == final
  {
    if duration == 0 then final
    else Min(final, Slope(initial, final, duration) * (dt as real) + initial)
  }

  /** `LinearRampPercentage.value` as written, at time `now`: never above the final
    * value, the final value for a zero duration, and within a day of the start the
    * formula applied to the true elapsed time. */
  function RampValueAsWritten(initial: real, final: real, duration: int, start: int, now: int): (v: real)
    ensures v <= final
    ensures duration == 0 ==> v == final
    ensures 0 <= now - start < SecondsPerDay ==> v == RampAsWritten(initial, final, duration, now - start)
  {
    RampAsWritten(initial, final, duration, Dt(start, now))
  }

  /** As written, a decreasing ramp sits at its final value while the ramp lasts... */
  lemma DecreasingRampFlatAsWritten(initial: real, final: real, duration: int, dt: int)
    requires final < initial && 0 < duration && 0 <= dt <= duration
    ensures RampAsWritten(initial, final, duration, dt) == final
  {
    var s := Slope(initial, final, duration);
    assert s * (duration as real) == final - initial;
    assert s < 0.0;
    assert s * (dt as real) >= s * (duration as real);
  }

  /** ...and falls below it once the ramp is over: 1.0 to 0.0 over ten seconds is
    * -1.0 twenty seconds in. */
  lemma DecreasingRampOvershootsAsWritten()
    ensures RampAsWritten(1.0, 0.0, 10, 20) == -1.0
  {
    assert Slope(1.0, 0.0, 10) == -0.1;
  }

  /** As written, the ramp starts over every day. */
  lemma RampRepeatsDaily(initial: real, final: real, duration: int, start: int, now: int)
    ensures RampValueAsWritten(initial, final, duration, start, now + SecondsPerDay)
      == RampValueAsWritten(initial, final, duration, start, now)
  {
    assert Dt(start, now + SecondsPerDay) == Dt(start, now);
  }

  /** A start ten seconds in the future reads as 86390 seconds elapsed; a one-hour
    * ramp from 0.0 to 1.0 is back at 0.0 exactly one day after it started. */
  lemma RampWrapExamples()
    ensures Dt(10, 0) == 86390
    ensures RampValueAsWritten(0.0, 1.0, 3600, 0, SecondsPerDay) == 0.0
  {
  }

  // The ramp as intended.

  predicate Between(v: real, a: real, b: real) {
    (a <= v <= b) || (b <= v <= a)
  }

  /** The intended ramp value after `elapsed` seconds: the initial value until the
    * start, the final value from the end of the ramp on, and the straight line
    * between them in between. */
  function RampValue(initial: real, final: real, duration: int, elapsed: int): (v: real)
    ensures Between(v, initial, final)
    ensures elapsed >= duration ==> v == final
    ensures 0 < duration && elapsed <= 0 ==> v == initial
  {
    if duration <= 0 || elapsed >= duration then final
    else if elapsed <= 0 then initial
    else
      var s := Slope(initial, final, duration);
      assert s * (duration as real) == final - initial;
      RampStep(s, elapsed as real, duration as real);
      initial + s * (elapsed as real)
  }

  lemma RampStep(s: real, e: real, d: real)
    requires 0.0 < e < d
    ensures (s >= 0.0 ==> 0.0 <= s * e <= s * d) && (s <= 0.0 ==> s * d <= s * e <= 0.0)
  {
  }

  /** The intended ramp moves in one direction only: never down on an increasing
    * ramp, never up on a decreasing one. */
  lemma RampMonotone(initial: real, final: real, duration: int, e1: int, e2: int)
    requires e1 <= e2
    ensures initial <= final ==> RampValue(initial, final, duration, e1) <= RampValue(initial, final, duration, e2)
    ensures final <= initial ==> RampValue(initial, final, duration, e2) <= RampValue(initial, final, duration, e1)
  {
    if 0 < duration && 0 < e1 < e2 < duration {
      var s := Slope(initial, final, duration);
      assert initial <= final ==> s >= 0.0;
      assert final <= initial ==> s <= 0.0;
      RampStep(s, (e2 - e1) as real, duration as real + 1.0);
      assert s * (e2 as real) - s * (e1 as real) == s * ((e2 - e1) as real);
    }
  }

  /** The code agrees with the intended ramp on an increasing (or flat) ramp read
    * within a day of its start. */
  lemma AsWrittenAgreesWithinADay(initial: real, final: real, duration: int, start: int, now: int)
    requires initial <= final && 0 <= duration && 0 <= now - start < SecondsPerDay
    ensures RampValueAsWritten(initial, final, duration, start, now) == RampValue(initial, final, duration, now - start)
  {
    if duration > 0 {
      var s := Slope(initial, final, duration);
      var e := now - start;
      assert s * (duration as real) == final - initial;
      assert s >= 0.0;
      if e >= duration {
        assert s * (e as real) >= s * (duration as real);
      } else if e > 0 {
        RampStep(s, e as real, duration as real);
      }
    }
  }

  /** 0.2 to 0.6 over a minute reads 0.4 after thirty seconds; a flat ramp reads its
    * one value throughout. */
  lemma RampExamples(v: real, duration: int, elapsed: int)
    ensures RampValue(0.2, 0.6, 60, 30) == 0.4
    ensures RampValue(v, v, duration, elapsed) == v
  {
  }

  /** The `value` property at time `now`: a static percentage reads its stored value;
    * a ramp reads as the intended ramp, a number between its two ends that is the
    * final value once the ramp is over and the initial value before it starts. */
  function ValueAt(p: Percentage, now: int): (r: Json)
    ensures p.Static? ==> r == p.value
    ensures p.LinearRamp? ==> r.JNum? && Between(r.r, p.initial, p.final)
    ensures p.LinearRamp? && now - p.start >= p.duration ==> r == JNum(p.final)
    ensures p.LinearRamp? && 0 < p.duration && now <= p.start ==> r == JNum(p.initial)
  {
    match p
    case Static(v) => v
    case LinearRamp(initial, final, duration, start) =>
      JNum(RampValue(initial, final, duration, now - start))
  }

  // Comparisons with plain numbers.

  function RealHolds(rel: Relation, a: real, b: real): bool {
    match rel
    case Less => a < b
    case LessOrEqual => a <= b
    case Greater => a > b
    case GreaterOrEqual => a >= b
  }

  /** `p > x`, `p >= x`, `p < x`, `p <= x`: ValueError when `x` is not a number,
    * otherwise Python's ordering of the value and `x`, which raises TypeError when
    * the value is not a number. */
  function CompareValue(p: Percentage, now: int, rel: Relation, x: Json): Result<bool> {
    match AsNumber(x)
    case None => Err(ValueError)
    case Some(n) =>
      match AsNumber(ValueAt(p, now))
      case Some(v) => Ok(RealHolds(rel, v, n))
      case None => Err(TypeError)
  }

  /** `p == x`: ValueError when `x` is not a number; a value that is not a number is
    * never equal to one. */
  function EqualsValue(p: Percentage, now: int, x: Json): Result<bool> {
    match AsNumber(x)
    case None => Err(ValueError)
    case Some(n) => Ok(AsNumber(ValueAt(p, now)) == Some(n))
  }

  /** Every comparison refuses a non-number before looking at the value. */
  lemma ComparisonGuard(p: Percentage, now: int, x: Json)
    requires AsNumber(x).None?
    ensures forall rel :: CompareValue(p, now, rel, x) == Err(ValueError)
    ensures EqualsValue(p, now, x) == Err(ValueError)
  {
  }

  /** With a numeric value the five comparisons are consistent with each other:
    * `>` is the negation of `<=`, `<` of `>=`, and `>=` is `>` or `==`. */
  lemma ComparisonsConsistent(p: Percentage, now: int, x: Json)
    requires AsNumber(x).Some? && AsNumber(ValueAt(p, now)).Some?
    ensures CompareValue(p, now, Greater, x).value == !CompareValue(p, now, LessOrEqual, x).value
    ensures CompareValue(p, now, Less, x).value == !CompareValue(p, now, GreaterOrEqual, x).value
    ensures CompareValue(p, now, GreaterOrEqual, x).value
      == (CompareValue(p, now, Greater, x).value || EqualsValue(p, now, x).value)
  {
  }

  /** `x <= p` for a float `x` is answered by `p >= x`: `0.6 <= Percentage(0.5)` is
    * false, while 0.5 and 0.4 give true. */
  lemma ReflectedComparisonExamples(now: int)
    ensures CompareValue(Static(JNum(0.5)), now, GreaterOrEqual, JNum(0.6)) == Ok(false)
    ensures CompareValue(Static(JNum(0.5)), now, GreaterOrEqual, JNum(0.5)) == Ok(true)
    ensures CompareValue(Static(JNum(0.5)), now, GreaterOrEqual, JNum(0.4)) == Ok(true)
  {
  }

  // The dictionary form.

  /** `to_dict`: the type first, then the variant's fields. */
  function ToDict(p: Percentage): (j: Json)
    ensures j.JObj? && |j.fields| > 0 && j.fields[0] == ("type", JStr(TypeName(p)))
  {
    match p
    case Static(v) => JObj([("type", JStr("Percentage")), ("value", v)])
    case LinearRamp(initial, final, duration, start) =>
      JObj([("type", JStr("LinearRampPercentage")), ("initial_value", JNum(initial)),
            ("final_value", JNum(final)), ("ramp_duration", JInt(duration)),
            ("initial_time", JInt(start))])
  }

  /** `Percentage.from_dict`: a missing value reads as None, not as the default. */
  function StaticFromDict(fields: Dicts.Dict<Json>): Percentage {
    Static(GetOrNull(fields, "value"))
  }

  /** `fields.get(key, default)` for a number. */
  function NumberField(fields: Dicts.Dict<Json>, key: string, default: real): Result<real> {
    match Dicts.Get(fields, key)
    case None => Ok(default)
    case Some(j) =>
      match AsNumber(j)
      case Some(r) => Ok(r)
      case None => Err(Unsupported)
  }

  /** `fields.get(key, default)` for a whole number of seconds. */
  function IntField(fields: Dicts.Dict<Json>, key: string, default: int): Result<int> {
    match Dicts.Get(fields, key)
    case None => Ok(default)
    case Some(j) =>
      match j
      case JInt(i) => Ok(i)
      case JBool(b) => Ok(BoolToInt(b))
      case _ => Err(Unsupported)
  }

  /** The start time: the stored timestamp, or now when there is none. */
  function StartField(fields: Dicts.Dict<Json>, now: int): Result<int> {
    match Dicts.Get(fields, "initial_time")
    case None => Ok(now)
    case Some(j) =>
      match j
      case JNull => Ok(now)
      case JInt(t) => Ok(t)
      case _ => Err(Unsupported)
  }

  /** `LinearRampPercentage.from_dict`, with defaults 0.0, 1.0, 3600 and now. */
  function RampFromDict(fields: Dicts.Dict<Json>, now: int): Result<Percentage> {
    var initial :- NumberField(fields, "initial_value", 0.0);
    var final :- NumberField(fields, "final_value", 1.0);
    var duration :- IntField(fields, "ramp_duration", 3600);
    var start :- StartField(fields, now);
    Ok(LinearRamp(initial, final, duration, start))
  }

  /** `PercentageFactory.create`: dispatch on `fields["type"]`. A missing type
    * raises KeyError (the handler reads the key again); a list or a dictionary
    * cannot be looked up; any other unknown type is refused. */
  function Create(fields: Dicts.Dict<Json>, now: int): (r: Result<Percentage>)
    ensures Dicts.Get(fields, "type").None? ==> r == Err(KeyError)
    ensures r.Ok? ==> Dicts.Get(fields, "type") == Some(JStr(TypeName(r.value)))
    ensures r.Ok? && r.value.Static? ==> r.value.value == GetOrNull(fields, "value")
    ensures Dicts.Get(fields, "type").Some? && Dicts.Get(fields, "type").value.JStr?
            && Dicts.Get(fields, "type").value.s !in {"Percentage", "LinearRampPercentage"}
            ==> r == Err(InvalidPercentageType)
  {
    match Dicts.Get(fields, "type")
    case None => Err(KeyError)
    case Some(t) =>
      if t.JArr? || t.JObj? then Err(TypeError)
      else if t == JStr("Percentage") then Ok(StaticFromDict(fields))
      else if t == JStr("LinearRampPercentage") then RampFromDict(fields, now)
      else Err(InvalidPercentageType)
  }

  /** Each field of a ramp's dictionary form holds what the ramp holds. */
  lemma RampFields(initial: real, final: real, duration: int, start: int)
    ensures var f := ToDict(LinearRamp(initial, final, duration, start)).fields;
      Dicts.Get(f, "type") == Some(JStr("LinearRampPercentage")) &&
      Dicts.Get(f, "initial_value") == Some(JNum(initial)) &&
      Dicts.Get(f, "final_value") == Some(JNum(final)) &&
      Dicts.Get(f, "ramp_duration") == Some(JInt(duration)) &&
      Dicts.Get(f, "initial_time") == Some(JInt(start))
  {
    var f := ToDict(LinearRamp(initial, final, duration, start)).fields;
    RampDictKeys(initial, final, duration, start);
    FieldsAt(f);
  }

  lemma RampDictKeys(initial: real, final: real, duration: int, start: int)
    ensures var f := ToDict(LinearRamp(initial, final, duration, start)).fields;
      |f| == |RampKeys| && forall j :: 0 <= j < |f| ==> f[j].0 == RampKeys[j]
  {
  }

  lemma FieldsAt(f: Dicts.Dict<Json>)
    requires |f| == |RampKeys| && forall j :: 0 <= j < |f| ==> f[j].0 == RampKeys[j]
    ensures Dicts.Get(f, "type") == Some(f[0].1)
    ensures Dicts.Get(f, "initial_value") == Some(f[1].1)
    ensures Dicts.Get(f, "final_value") == Some(f[2].1)
    ensures Dicts.Get(f, "ramp_duration") == Some(f[3].1)
    ensures Dicts.Get(f, "initial_time") == Some(f[4].1)
  {
    FieldAt(f, RampKeys[0], 0);
    FieldAt(f, RampKeys[1], 1);
    FieldAt(f, RampKeys[2], 2);
    FieldAt(f, RampKeys[3], 3);
    FieldAt(f, RampKeys[4], 4);
  }

  /** The keys of a ramp's dictionary form, in order. */
  const RampKeys: seq<string> := ["type", "initial_value", "final_value", "ramp_duration", "initial_time"]

  lemma RampKeysDistinct()
    ensures forall i, j :: 0 <= i < j < |RampKeys| ==> RampKeys[i] != RampKeys[j]
  {
    var names := RampKeys;
    assert names[0][0] == 't' && names[1][0] == 'i' && names[2][0] == 'f';
    assert names[3][0] == 'r' && names[4][0] == 'i';
    assert names[1][8] == 'v' && names[4][8] == 't';
  }

  lemma FieldAt(f: Dicts.Dict<Json>, k: string, i: int)
    requires |f| == |RampKeys| && forall j :: 0 <= j < |f| ==> f[j].0 == RampKeys[j]
    requires 0 <= i < |f| && k == RampKeys[i]
    ensures Dicts.Get(f, k) == Some(f[i].1)
  {
    RampKeysDistinct();
    Dicts.GetFirst(f, k, i);
  }

  /** Every percentage survives a trip through its dictionary form and the factory,
    * whatever the clock reads. */
  lemma CreateRoundTrip(p: Percentage, now: int)
    ensures Create(ToDict(p).fields, now) == Ok(p)
  {
    match p
    case Static(v) => StaticRoundTrip(v, now);
    case LinearRamp(initial, final, duration, start) => RampRoundTrip(initial, final, duration, start, now);
  }

  lemma StaticRoundTrip(v: Json, now: int)
    ensures Create(ToDict(Static(v)).fields, now) == Ok(Static(v))
  {
    var f := ToDict(Static(v)).fields;
    Dicts.GetFirst(f, "type", 0);
    assert f[0].0 != "value";
    Dicts.GetFirst(f, "value", 1);
  }

  lemma RampRoundTrip(initial: real, final: real, duration: int, start: int, now: int)
    ensures Create(ToDict(LinearRamp(initial, final, duration, start)).fields, now)
      == Ok(LinearRamp(initial, final, duration, start))
  {
    RampFields(initial, final, duration, start);
    ReadRamp(ToDict(LinearRamp(initial, final, duration, start)).fields, initial, final, duration, start, now);
  }

  /** The factory reads a ramp back from fields that hold its type and values. */
  lemma ReadRamp(f: Dicts.Dict<Json>, initial: real, final: real, duration: int, start: int, now: int)
    requires Dicts.Get(f, "type") == Some(JStr("LinearRampPercentage"))
    requires Dicts.Get(f, "initial_value") == Some(JNum(initial))
    requires Dicts.Get(f, "final_value") == Some(JNum(final))
    requires Dicts.Get(f, "ramp_duration") == Some(JInt(duration))
    requires Dicts.Get(f, "initial_time") == Some(JInt(start))
    ensures Create(f, now) == Ok(LinearRamp(initial, final, duration, start))
  {
    assert JStr("LinearRampPercentage") != JStr("Percentage") by {
      assert "LinearRampPercentage"[0] != "Percentage"[0];
    }
    RampFromDictOf(f, initial, final, duration, start, now);
  }

  lemma RampFromDictOf(f: Dicts.Dict<Json>, initial: real, final: real, duration: int, start: int, now: int)
    requires Dicts.Get(f, "initial_value") == Some(JNum(initial))
    requires Dicts.Get(f, "final_value") == Some(JNum(final))
    requires Dicts.Get(f, "ramp_duration") == Some(JInt(duration))
    requires Dicts.Get(f, "initial_time") == Some(JInt(start))
    ensures RampFromDict(f, now) == Ok(LinearRamp(initial, final, duration, start))
  {
    NumberFieldOf(f, "initial_value", 0.0, initial);
    NumberFieldOf(f, "final_value", 1.0, final);
    IntFieldOf(f, "ramp_duration", 3600, duration);
    StartFieldOf(f, now, start);
  }

  lemma NumberFieldOf(f: Dicts.Dict<Json>, key: string, default: real, r: real)
    requires Dicts.Get(f, key) == Some(JNum(r))
    ensures NumberField(f, key, default) == Ok(r)
  {
  }

  lemma IntFieldOf(f: Dicts.Dict<Json>, key: string, default: int, i: int)
    requires Dicts.Get(f, key) == Some(JInt(i))
    ensures IntField(f, key, default) == Ok(i)
  {
  }

  lemma StartFieldOf(f: Dicts.Dict<Json>, now: int, t: int)
    requires Dicts.Get(f, "initial_time") == Some(JInt(t))
    ensures StartField(f, now) == Ok(t)
  {
  }

  /** The factory fails with KeyError exactly when there is no type, and refuses
    * exactly the other types that can be looked up. */
  lemma CreateErrors(fields: Dicts.Dict<Json>, now: int)
    ensures Create(fields, now) == Err(KeyError) <==> Dicts.Get(fields, "type").None?
    ensures Create(fields, now) == Err(InvalidPercentageType) <==>
      (Dicts.Get(fields, "type").Some? &&
       var t := Dicts.Get(fields, "type").value;
       !t.JArr? && !t.JObj? && t != JStr("Percentage") && t != JStr("LinearRampPercentage"))
  {
    RampFromDictFails(fields, now);
  }

  /** Reading a ramp fails only on a field of the wrong kind. */
  lemma RampFromDictFails(fields: Dicts.Dict<Json>, now: int)
    ensures RampFromDict(fields, now).Err? ==> RampFromDict(fields, now).error == Unsupported
  {
  }

  /** Missing fields: a static percentage with no value holds None (not the 1.0 of
    * the constructor), and a ramp takes 0.0, 1.0, one hour and the current time. */
  lemma CreateDefaults(now: int)
    ensures Create([("type", JStr("Percentage"))], now) == Ok(Static(JNull))
    ensures Static(JNull) != Full
    ensures Create([("type", JStr("LinearRampPercentage"))], now) == Ok(LinearRamp(0.0, 1.0, 3600, now))
  {
    var f: Dicts.Dict<Json> := [("type", JStr("LinearRampPercentage"))];
    assert "initial_value" !in Dicts.Keys(f) && "final_value" !in Dicts.Keys(f);
    assert "ramp_duration" !in Dicts.Keys(f) && "initial_time" !in Dicts.Keys(f);
    assert "value" !in Dicts.Keys([("type", JStr("Percentage"))]);
  }
}
