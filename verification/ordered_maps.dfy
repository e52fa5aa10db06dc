/** Maps that remember the order their keys were first put, as
    `LinkedHashMap` does: an entry list with unique keys, where putting a
    present key replaces its value in place and putting a new key appends.
    The model also uses them for the repositories' `HashMap`s, whose iteration
    order Java leaves unspecified. */
module OrderedMaps {
  import opened Wrappers

  type OMap<K, V> = seq<(K, V)>

  function Keys<K, V>(m: OMap<K, V>): (r: seq<K>)
    ensures |r| == |m|
    ensures forall i :: 0 <= i < |m| ==> r[i] == m[i].0
  {
    seq(|m|, i requires 0 <= i < |m| => m[i].0)
  }

  predicate UniqueKeys<K(==), V>(m: OMap<K, V>) {
    forall i, j :: 0 <= i < j < |m| ==> m[i].0 != m[j].0
  }

  /** The position of the first entry with key `k`. */
  function Find<K(==), V>(m: OMap<K, V>, k: K): (r: Option<nat>)
    ensures r.Some? ==> r.value < |m| && m[r.value].0 == k
    ensures r.Some? ==> forall j :: 0 <= j < r.value ==> m[j].0 != k
    ensures r.None? ==> forall j :: 0 <= j < |m| ==> m[j].0 != k
  {
    if |m| == 0 then None
    else if m[0].0 == k then Some(0)
    else match Find(m[1..], k)
      case None => None
      case Some(i) => Some(i + 1)
  }

  /** Only the first matching position satisfies `Find`'s contract. */
  lemma FindIs<K, V>(m: OMap<K, V>, k: K, i: nat)
    requires i < |m| && m[i].0 == k
    requires forall j :: 0 <= j < i ==> m[j].0 != k
    ensures Find(m, k) == Some(i)
  {
  }

  predicate HasKey<K(==), V>(m: OMap<K, V>, k: K) {
    Find(m, k).Some?
  }

  lemma HasKeyIff<K, V>(m: OMap<K, V>, k: K)
    ensures HasKey(m, k) <==> k in Keys(m)
  {
    if k in Keys(m) {
      var i :| 0 <= i < |m| && Keys(m)[i] == k;
    }
  }

  /** `map.get(k)`. */
  function Get<K(==), V>(m: OMap<K, V>, k: K): (r: Option<V>)
    ensures r.Some? <==> HasKey(m, k)
    ensures r.Some? ==> exists i :: 0 <= i < |m| && m[i] == (k, r.value)
  {
    match Find(m, k)
    case None => None
    case Some(i) => Some(m[i].1)
  }

  /** `map.put(k, v)`. */
  function Put<K(==), V>(m: OMap<K, V>, k: K, v: V): (r: OMap<K, V>)
    ensures |r| == if HasKey(m, k) then |m| else |m| + 1
  {
    match Find(m, k)
    case Some(i) => m[i := (k, v)]
    case None => m + [(k, v)]
  }

  /** After `put(k, v)` the map holds `v` at `k` and nothing else changed;
      a present key keeps its place and a new key goes last. */
  lemma PutGet<K, V>(m: OMap<K, V>, k: K, v: V, k': K)
    ensures Get(Put(m, k, v), k') == if k' == k then Some(v) else Get(m, k')
  {
    var r := Put(m, k, v);
    match Find(m, k)
    case Some(i) =>
      if k' == k {
        FindIs(r, k, i);
      } else {
        match Find(m, k')
        case Some(j) => FindIs(r, k', j);
        case None =>
      }
    case None =>
      if k' == k {
        FindIs(r, k, |m|);
      } else {
        match Find(m, k')
        case Some(j) => FindIs(r, k', j);
        case None =>
      }
  }

  lemma PutKeys<K, V>(m: OMap<K, V>, k: K, v: V)
    ensures Keys(Put(m, k, v)) == if HasKey(m, k) then Keys(m) else Keys(m) + [k]
    ensures UniqueKeys(m) ==> UniqueKeys(Put(m, k, v))
  {
  }

  /** `put(k, v)` adds the key `k` and keeps every other key. */
  lemma PutHasKey<K, V>(m: OMap<K, V>, k: K, v: V, k': K)
    ensures HasKey(Put(m, k, v), k') <==> HasKey(m, k') || k' == k
  {
    PutGet(m, k, v, k');
  }

  /** The key/value pairs as a Dafny map. */
  function ToMap<K(==, !new), V>(m: OMap<K, V>): (r: map<K, V>)
    ensures forall k :: k in r <==> HasKey(m, k)
    ensures forall k :: k in r ==> Get(m, k) == Some(r[k])
  {
    forall k ensures HasKey(m, k) <==> k in Keys(m) {
      HasKeyIff(m, k);
    }
    map k | k in Keys(m) :: Get(m, k).value
  }

  /** `xs[i]` is the last element `key` sends to `k`. */
  ghost predicate LastKeyed<T, K>(xs: seq<T>, key: T -> Option<K>, k: K, i: int) {
    && 0 <= i < |xs| && key(xs[i]) == Some(k)
    && forall j :: i < j < |xs| ==> key(xs[j]) != Some(k)
  }

  /** A loop that puts `val(x)` under `key(x)` for each element leaves `got`
      under `k`: the value of the last element keyed `k`, else `base`. */
  ghost predicate LastWins<T, K, V>(xs: seq<T>, key: T -> Option<K>, val: T -> V, k: K, base: V, got: V) {
    && ((forall i :: 0 <= i < |xs| ==> key(xs[i]) != Some(k)) ==> got == base)
    && (forall i :: LastKeyed(xs, key, k, i) ==> got == val(xs[i]))
  }

  /** One more put keeps `LastWins`. */
  lemma LastWinsStep<T, K, V>(xs: seq<T>, key: T -> Option<K>, val: T -> V, k: K, base: V, before: V, got: V)
    requires |xs| > 0 && LastWins(xs[..|xs| - 1], key, val, k, base, before)
    requires got == if key(xs[|xs| - 1]) == Some(k) then val(xs[|xs| - 1]) else before
    ensures LastWins(xs, key, val, k, base, got)
  {
    var n := |xs| - 1;
    var front := xs[..n];
    if key(xs[n]) == Some(k) {
      forall i | LastKeyed(xs, key, k, i)
        ensures got == val(xs[i])
      {
        assert i == n;
      }
    } else {
      forall i | LastKeyed(xs, key, k, i)
        ensures got == val(xs[i])
      {
        assert LastKeyed(front, key, k, i);
      }
      if forall i :: 0 <= i < |xs| ==> key(xs[i]) != Some(k) {
        assert forall i :: 0 <= i < |front| ==> key(front[i]) != Some(k);
      }
    }
  }

  /** Puts, in order, the entry each element yields, if it yields one. */
  function PutAll<T, K(==), V>(xs: seq<T>, entry: T -> Option<(K, V)>, acc: OMap<K, V>): (r: OMap<K, V>)
    decreases |xs|
  {
    if |xs| == 0 then acc
    else
      var before := PutAll(xs[..|xs| - 1], entry, acc);
      match entry(xs[|xs| - 1])
      case Some(e) => Put(before, e.0, e.1)
      case None => before
  }

  /** The key of the entry an element yields. */
  function EntryKey<T, K, V>(entry: T -> Option<(K, V)>): T -> Option<K> {
    (x: T) => match entry(x) case Some(e) => Some(e.0) case None => None
  }

  /** The value of the entry an element yields. */
  function EntryValue<T, K, V>(entry: T -> Option<(K, V)>): T -> Option<V> {
    (x: T) => match entry(x) case Some(e) => Some(e.1) case None => None
  }

  /** Under each key, `PutAll` keeps the value of the last element whose
      entry has that key, and what `acc` held when there is none. */
  lemma {:induction false} PutAllLast<T, K, V>(xs: seq<T>, entry: T -> Option<(K, V)>, acc: OMap<K, V>, k: K)
    ensures LastWins(xs, EntryKey(entry), EntryValue(entry), k, Get(acc, k), Get(PutAll(xs, entry, acc), k))
    decreases |xs|
  {
    if |xs| > 0 {
      var n := |xs| - 1;
      var before := PutAll(xs[..n], entry, acc);
      PutAllLast(xs[..n], entry, acc, k);
      if entry(xs[n]).Some? {
        PutGet(before, entry(xs[n]).value.0, entry(xs[n]).value.1, k);
      }
      LastWinsStep(xs, EntryKey(entry), EntryValue(entry), k, Get(acc, k), Get(before, k), Get(PutAll(xs, entry, acc), k));
    }
  }

  /** An element keyed `k` means a last one exists. */
  lemma {:induction false} LastKeyedExists<T, K>(xs: seq<T>, key: T -> Option<K>, k: K, i: int)
    requires 0 <= i < |xs| && key(xs[i]) == Some(k)
    ensures exists j :: LastKeyed(xs, key, k, j)
    decreases |xs| - i
  {
    if !LastKeyed(xs, key, k, i) {
      var j :| i < j < |xs| && key(xs[j]) == Some(k);
      LastKeyedExists(xs, key, k, j);
    }
  }
}
