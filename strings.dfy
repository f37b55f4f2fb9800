/** The string operations the library relies on: Python's code-point ordering of
  * `str`, `str.split("__")` / `"__".join(...)`, and substring membership. */
module Strings {
  import opened Wrappers

  /** Three-way comparison of strings by code point, the order Python's `sorted` and
    * `<` use on `str`: -1, 0 or 1. */
  function Cmp(a: string, b: string): (c: int)
    ensures c == -1 || c == 0 || c == 1
    ensures c == 0 <==> a == b
  {
    if |a| == 0 then (if |b| == 0 then 0 else -1)
    else if |b| == 0 then 1
    else if a[0] < b[0] then -1
    else if b[0] < a[0] then 1
    else
      assert a == [a[0]] + a[1..] && b == [b[0]] + b[1..];
      Cmp(a[1..], b[1..])
  }

  /** Strict lexicographic order on strings. */
  predicate Less(a: string, b: string) {
    Cmp(a, b) < 0
  }

  lemma {:induction false} CmpAntisymmetric(a: string, b: string)
    ensures Cmp(b, a) == -Cmp(a, b)
  {
    if |a| > 0 && |b| > 0 && a[0] == b[0] {
      CmpAntisymmetric(a[1..], b[1..]);
    }
  }

  lemma {:induction false} LessTransitive(a: string, b: string, c: string)
    requires Less(a, b) && Less(b, c)
    ensures Less(a, c)
  {
    if |a| > 0 && |b| > 0 && |c| > 0 && a[0] == b[0] && b[0] == c[0] {
      LessTransitive(a[1..], b[1..], c[1..]);
    }
  }

  /** Any two different strings are ordered one way or the other. */
  lemma LessTotal(a: string, b: string)
    requires a != b
    ensures Less(a, b) || Less(b, a)
  {
    CmpAntisymmetric(a, b);
  }

  /** The delimiter between a check's variable and its operator symbol. */
  const Delimiter: string := "__"

  /** Whether the delimiter starts at position `i` of `s`. */
  predicate DelimiterAt(s: string, i: int) {
    0 <= i && i + 1 < |s| && s[i] == '_' && s[i + 1] == '_'
  }

  /** The leftmost position at or after `from` where the delimiter starts. */
  function FindDelimiterFrom(s: string, from: nat): (r: Option<nat>)
    requires from <= |s|
    ensures r.Some? ==> from <= r.value && DelimiterAt(s, r.value)
    ensures r.Some? ==> forall j :: from <= j < r.value ==> !DelimiterAt(s, j)
    ensures r.None? ==> forall j :: from <= j ==> !DelimiterAt(s, j)
    decreases |s| - from
  {
    if from + 1 >= |s| then None
    else if s[from] == '_' && s[from + 1] == '_' then Some(from)
    else FindDelimiterFrom(s, from + 1)
  }

  function FindDelimiter(s: string): Option<nat> {
    FindDelimiterFrom(s, 0)
  }

  /** `s` holds no occurrence of the delimiter. */
  predicate NoDelimiter(s: string) {
    FindDelimiter(s).None?
  }

  /** Python's `s.split("__")`: cut at every leftmost, non-overlapping occurrence. */
  function Split(s: string): (parts: seq<string>)
    ensures |parts| >= 1
    ensures Join(parts) == s
    ensures forall k :: 0 <= k < |parts| ==> NoDelimiter(parts[k])
    decreases |s|
  {
    match FindDelimiter(s)
    case None => [s]
    case Some(i) =>
      var head, rest := s[..i], s[i + 2..];
      assert forall j :: DelimiterAt(head, j) ==> DelimiterAt(s, j);
      var tail := Split(rest);
      assert s == head + Delimiter + rest;
      [head] + tail
  }

  /** Python's `"__".join(parts)`. */
  function Join(parts: seq<string>): string {
    if |parts| == 0 then ""
    else if |parts| == 1 then parts[0]
    else parts[0] + Delimiter + Join(parts[1..])
  }

  /** Whether the last character of `s` is an underscore. */
  predicate EndsWithUnderscore(s: string) {
    |s| > 0 && s[|s| - 1] == '_'
  }

  /** Joining two delimiter-free parts and splitting again gives the parts back, as
    * long as the first part does not end in '_' (otherwise the joined string has an
    * earlier occurrence of the delimiter). */
  lemma SplitJoinTwo(v: string, s: string)
    requires NoDelimiter(v) && !EndsWithUnderscore(v) && NoDelimiter(s)
    ensures Split(v + Delimiter + s) == [v, s]
  {
    var k := v + Delimiter + s;
    assert DelimiterAt(k, |v|);
    forall j | 0 <= j < |v|
      ensures !DelimiterAt(k, j)
    {
      if j + 1 < |v| {
        assert !DelimiterAt(v, j);
      }
    }
    assert FindDelimiter(k) == Some(|v|);
    assert k[|v| + 2..] == s;
    assert k[..|v|] == v;
  }

  /** The converse: a string that splits into exactly two parts has a first part
    * that does not end in '_'. */
  lemma SplitTwoHead(k: string)
    requires |Split(k)| == 2
    ensures !EndsWithUnderscore(Split(k)[0])
  {
    var i := FindDelimiter(k).value;
    if i > 0 && k[i - 1] == '_' {
      assert DelimiterAt(k, i - 1);
    }
  }

  /** Python's `x in s` for two strings: `x` occurs in `s` as a substring. */
  predicate IsSubstring(x: string, s: string) {
    exists i :: 0 <= i <= |s| - |x| && OccursAt(x, s, i)
  }

  /** `x` occurs in `s` starting at position `i`. */
  predicate OccursAt(x: string, s: string, i: int) {
    0 <= i <= |s| - |x| && s[i..i + |x|] == x
  }
}
