/** The offset/limit windows the Redis and S3 stores apply to the keys their
  * backends enumerate, and the Redis key names. The enumerated keys are an input
  * sequence, in the order the backend yields them. */
module Listing {
  import opened Wrappers
  import Iter

  function Clamp(x: int, lo: int, hi: int): (r: int)
    requires lo <= hi
    ensures lo <= r <= hi
  {
    if x < lo then lo else if x > hi then hi else x
  }

  /** The keys a window keeps: those numbered (from 1) above `offset` and, with a
    * limit, not above `limit + offset`. */
  function Window<T>(keys: seq<T>, limit: Option<int>, offset: int): (w: seq<T>)
  {
    var lo := Start(keys, offset);
    var hi := if limit.None? then |keys| else Clamp(limit.value + offset, lo, |keys|);
    keys[lo..hi]
  }

  /** Where the window starts: the offset, within the keys. */
  function Start<T>(keys: seq<T>, offset: int): (lo: int)
    ensures 0 <= lo <= |keys|
  {
    Clamp(offset, 0, |keys|)
  }

  /** `_enumerate_feature_keys`: counts the keys as it visits them, skips those
    * within the offset and stops at the first one past the limit. */
  method EnumerateFeatureKeys(keys: seq<string>, limit: Option<int>, offset: int) returns (out: seq<string>)
    ensures out == Window(keys, limit, offset)
  {
    out := [];
    var visited := 0;
    while visited < |keys|
      invariant 0 <= visited <= |keys|
      invariant out == Window(keys[..visited], limit, offset)
    {
      var key := keys[visited];
      visited := visited + 1;
      if visited <= offset {
        WindowSkip(keys, limit, offset, visited);
        continue;
      }
      if limit.Some? && visited > limit.value + offset {
        WindowStop(keys, limit, offset, visited);
        return;
      }
      WindowTake(keys, limit, offset, visited);
      out := out + [key];
    }
    assert keys[..visited] == keys;
  }

  /** `_has_not_exceeded_list_offset`. */
  predicate HasNotExceededListOffset(visited: int, offset: int) {
    visited <= offset
  }

  /** `_has_reached_end_of_list`. */
  predicate HasReachedEndOfList(limit: Option<int>, offset: int, visited: int) {
    limit.Some? && visited > limit.value + offset
  }

  /** The S3 store's `list`: the same window over the listed object keys, each
    * fetched as it is kept. */
  method ListObjects<T>(keys: seq<string>, limit: Option<int>, offset: int, fetch: string -> T) returns (out: seq<T>)
    ensures |out| == |Window(keys, limit, offset)|
    ensures forall i :: 0 <= i < |out| ==> out[i] == fetch(Window(keys, limit, offset)[i])
  {
    out := [];
    var visited := 0;
    ghost var kept: seq<string> := [];
    while visited < |keys|
      invariant 0 <= visited <= |keys|
      invariant kept == Window(keys[..visited], limit, offset)
      invariant |out| == |kept| && forall i :: 0 <= i < |out| ==> out[i] == fetch(kept[i])
    {
      var key := keys[visited];
      visited := visited + 1;
      if HasNotExceededListOffset(visited, offset) {
        WindowSkip(keys, limit, offset, visited);
        continue;
      }
      if HasReachedEndOfList(limit, offset, visited) {
        WindowStop(keys, limit, offset, visited);
        return;
      }
      WindowTake(keys, limit, offset, visited);
      kept := kept + [key];
      out := out + [fetch(key)];
    }
    assert keys[..visited] == keys;
  }

  // One step of the visiting loop.

  lemma WindowSkip<T>(keys: seq<T>, limit: Option<int>, offset: int, visited: int)
    requires 0 < visited <= |keys| && visited <= offset
    ensures Window(keys[..visited], limit, offset) == Window(keys[..visited - 1], limit, offset) == []
  {
  }

  lemma WindowStop<T>(keys: seq<T>, limit: Option<int>, offset: int, visited: int)
    requires 0 < visited <= |keys| && offset < visited && limit.Some? && visited > limit.value + offset
    ensures Window(keys, limit, offset) == Window(keys[..visited - 1], limit, offset)
  {
    var lo := Clamp(offset, 0, |keys|);
    var lo' := Clamp(offset, 0, visited - 1);
    assert lo == lo';
    assert keys[..visited - 1][lo'..Clamp(limit.value + offset, lo', visited - 1)] == keys[lo..Clamp(limit.value + offset, lo, |keys|)];
  }

  lemma WindowTake<T>(keys: seq<T>, limit: Option<int>, offset: int, visited: int)
    requires 0 < visited <= |keys| && offset < visited && (limit.Some? ==> visited <= limit.value + offset)
    ensures Window(keys[..visited], limit, offset) == Window(keys[..visited - 1], limit, offset) + [keys[visited - 1]]
  {
    var lo := Clamp(offset, 0, visited);
    var lo' := Clamp(offset, 0, visited - 1);
    assert lo == lo';
    assert keys[..visited][lo..visited] == keys[..visited - 1][lo'..visited - 1] + [keys[visited - 1]];
  }

  // What the windows promise.

  /** For a non-negative offset within the keys and a non-negative limit, the
    * window is `keys[offset:offset + limit]`, and without a limit `keys[offset:]`. */
  lemma WindowIsSlice<T>(keys: seq<T>, limit: nat, offset: nat)
    requires offset <= |keys|
    ensures Window(keys, Some(limit), offset) == keys[offset..Iter.Min(offset + limit, |keys|)]
    ensures Window(keys, None, offset) == keys[offset..]
  {
  }

  /** The window is a contiguous run of the keys, in their order, of at most
    * `limit` keys; a limit of 0, or an offset at or past the end, keeps nothing. */
  lemma WindowBounds<T>(keys: seq<T>, limit: Option<int>, offset: int)
    ensures Start(keys, offset) + |Window(keys, limit, offset)| <= |keys|
    ensures Window(keys, limit, offset) == keys[Start(keys, offset)..Start(keys, offset) + |Window(keys, limit, offset)|]
    ensures limit.Some? && limit.value >= 0 ==> |Window(keys, limit, offset)| <= limit.value
    ensures limit == Some(0) ==> Window(keys, limit, offset) == []
    ensures offset >= |keys| ==> Window(keys, limit, offset) == []
  {
  }

  /** The Redis store's `list` reads the window in batches; the batches, joined,
    * are the window. */
  lemma BatchedWindow(keys: seq<string>, limit: Option<int>, offset: int, batchSize: nat)
    requires batchSize > 0
    ensures Iter.Concat(Iter.Chunks(Window(keys, limit, offset), batchSize)) == Window(keys, limit, offset)
  {
    Iter.ConcatChunks(Window(keys, limit, offset), batchSize);
  }

  /** `_key_name`: the base key and the flag name joined by "/". */
  function KeyName(baseKey: string, name: string): (k: string)
    ensures |k| == |baseKey| + 1 + |name| && k[|baseKey|] == '/'
    ensures k[..|baseKey|] == baseKey && k[|baseKey| + 1..] == name
  {
    baseKey + "/" + name
  }

  /** `_make_scan_wildcard_match`. */
  function ScanPattern(baseKey: string): string {
    baseKey + "/*"
  }

  /** A pattern ending in `*` matches every string that starts with what precedes
    * the `*`. */
  predicate MatchesTrailingWildcard(pattern: string, s: string) {
    |pattern| > 0 && pattern[|pattern| - 1] == '*' &&
    |s| >= |pattern| - 1 && s[..|pattern| - 1] == pattern[..|pattern| - 1]
  }

  /** Every flag's key is found by the scan: the key name matches the scan
    * pattern. */
  lemma ScanFindsEveryKey(baseKey: string, name: string)
    ensures MatchesTrailingWildcard(ScanPattern(baseKey), KeyName(baseKey, name))
  {
    var p := ScanPattern(baseKey);
    assert p[..|p| - 1] == baseKey + "/";
    assert KeyName(baseKey, name)[..|baseKey| + 1] == baseKey + "/";
  }

  /** Two names under one base key have the same key only if they are the same. */
  lemma KeyNameInjective(baseKey: string, n1: string, n2: string)
    requires KeyName(baseKey, n1) == KeyName(baseKey, n2)
    ensures n1 == n2
  {
  }
}
