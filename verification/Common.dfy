/** Vocabulary shared by all the models: optional values and the database clock. */
module Common {

  datatype Option<+T> = None | Some(value: T)

  /** An instant, or a length of time, in microseconds: the resolution of the clock and of the tables. */
  type Time = int

  function Seconds(n: int): Time {
    n * 1_000_000
  }

  /** Whole seconds in a length of time, rounded towards zero. */
  function WholeSeconds(t: Time): int
    requires t >= 0
  {
    t / 1_000_000
  }

  function Max(a: int, b: int): int {
    if a < b then b else a
  }

  function Min(a: int, b: int): int {
    if a < b then a else b
  }

  function Pow2(n: nat): nat {
    if n == 0 then 1 else 2 * Pow2(n - 1)
  }

  /** The row stored under a key, if there is one. */
  function Find<K, V>(table: map<K, V>, key: K): Option<V> {
    if key in table then Some(table[key]) else None
  }

  predicate NoDuplicates<T(==)>(xs: seq<T>) {
    forall i, j :: 0 <= i < j < |xs| ==> xs[i] != xs[j]
  }

  /** `table` after each of `keys` has been given the value that `f` has for it, if any. */
  function Written<K, V>(table: map<K, V>, keys: seq<K>, f: K -> Option<V>): map<K, V> {
    if |keys| == 0 then table
    else
      var front, last := Written(table, keys[..|keys| - 1], f), keys[|keys| - 1];
      if f(last).Some? then front[last := f(last).value] else front
  }

  lemma {:induction false} WrittenFind<K, V>(table: map<K, V>, keys: seq<K>, f: K -> Option<V>, k: K)
    ensures Find(Written(table, keys, f), k) == if k in keys && f(k).Some? then f(k) else Find(table, k)
  {
    if |keys| > 0 {
      var front, last := keys[..|keys| - 1], keys[|keys| - 1];
      assert keys == front + [last];
      WrittenFind(table, front, f, k);
    }
  }

  lemma PrefixGrows<K>(keys: seq<K>, i: nat)
    requires i < |keys|
    ensures forall k :: k in keys[..i + 1] <==> k in keys[..i] || k == keys[i]
    ensures NoDuplicates(keys) ==> keys[i] !in keys[..i]
  {
    assert keys[..i + 1] == keys[..i] + [keys[i]];
  }

  lemma WrittenGrows<K, V>(table: map<K, V>, keys: seq<K>, i: nat, f: K -> Option<V>)
    requires i < |keys|
    ensures var before, after := Written(table, keys[..i], f), Written(table, keys[..i + 1], f);
            after == if f(keys[i]).Some? then before[keys[i] := f(keys[i]).value] else before
  {
    assert keys[..i + 1][..i] == keys[..i];
  }
}
