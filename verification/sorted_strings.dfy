/** `String.compareTo` and the two sorted collections keyed by it that the
    source uses: `TreeSet<String>` (the insert and update column lists) and
    `TreeMap<String, V>` (the changes found between two entities). Both are
    modelled as strictly ascending sequences. */
module SortedStrings {
  import opened Wrappers
  import opened OrderedMaps

  /** `a.compareTo(b) < 0`: char-by-char comparison, and a proper prefix
      comes first. */
  predicate Below(a: string, b: string)
    decreases |a|
  {
    if |a| == 0 then |b| > 0
    else |b| > 0 && (a[0] < b[0] || (a[0] == b[0] && Below(a[1..], b[1..])))
  }

  lemma {:induction false} BelowIrreflexive(a: string)
    ensures !Below(a, a)
    decreases |a|
  {
    if |a| > 0 {
      BelowIrreflexive(a[1..]);
    }
  }

  lemma {:induction false} BelowTransitive(a: string, b: string, c: string)
    requires Below(a, b) && Below(b, c)
    ensures Below(a, c)
    decreases |a|
  {
    if |a| > 0 && a[0] == b[0] && b[0] == c[0] {
      BelowTransitive(a[1..], b[1..], c[1..]);
    }
  }

  lemma {:induction false} BelowTotal(a: string, b: string)
    ensures a == b || Below(a, b) || Below(b, a)
    decreases |a|
  {
    if |a| > 0 && |b| > 0 && a[0] == b[0] {
      BelowTotal(a[1..], b[1..]);
      if a[1..] == b[1..] {
        assert a == [a[0]] + a[1..] && b == [b[0]] + b[1..];
      }
    }
  }

  lemma BelowAsymmetric(a: string, b: string)
    requires Below(a, b)
    ensures !Below(b, a)
  {
    if Below(b, a) {
      BelowTransitive(a, b, a);
      BelowIrreflexive(a);
    }
  }

  /** Strictly ascending, so also free of repeats. */
  predicate Sorted(s: seq<string>) {
    forall i, j :: 0 <= i < j < |s| ==> Below(s[i], s[j])
  }

  /** `treeSet.add(x)`. */
  function Add(s: seq<string>, x: string): (r: seq<string>)
    requires Sorted(s)
    ensures Sorted(r)
    ensures forall y :: y in r <==> y in s || y == x
  {
    if |s| == 0 then [x]
    else if x == s[0] then s
    else if Below(x, s[0]) then
      assert forall j :: 0 < j < |s| ==> Below(x, s[j]) by {
        forall j | 0 < j < |s| ensures Below(x, s[j]) {
          BelowTransitive(x, s[0], s[j]);
        }
      }
      [x] + s
    else
      BelowTotal(x, s[0]);
      var rest := Add(s[1..], x);
      assert forall y :: y in rest ==> Below(s[0], y);
      [s[0]] + rest
  }

  lemma NotBothBelow(a: string, b: string)
    ensures !(Below(a, b) && Below(b, a))
  {
    if Below(a, b) {
      BelowAsymmetric(a, b);
    }
  }

  lemma SortedHeadLeast(s: seq<string>)
    requires Sorted(s) && |s| > 0
    ensures forall x :: x in s ==> x == s[0] || Below(s[0], x)
  {
  }

  /** A sorted sequence is fixed by its elements: a `TreeSet` iterates its
      contents in exactly one order. */
  lemma {:induction false} SortedUnique(a: seq<string>, b: seq<string>)
    requires Sorted(a) && Sorted(b)
    requires forall x :: x in a <==> x in b
    ensures a == b
    decreases |a|
  {
    if |a| > 0 {
      assert a[0] in b;
    }
    if |b| > 0 {
      assert b[0] in a;
    }
    if |a| > 0 && |b| > 0 {
      SortedHeadLeast(a);
      SortedHeadLeast(b);
      assert a[0] in b && b[0] in a;
      NotBothBelow(a[0], b[0]);
      assert a[0] == b[0];
      BelowIrreflexive(a[0]);
      forall x ensures x in a[1..] <==> x in b[1..] {
        if x in a[1..] {
          var i :| 1 <= i < |a| && a[i] == x;
          assert x in b;
          var j :| 0 <= j < |b| && b[j] == x;
          assert j != 0 && b[1..][j - 1] == x;
        }
        if x in b[1..] {
          var i :| 1 <= i < |b| && b[i] == x;
          assert x in a;
          var j :| 0 <= j < |a| && a[j] == x;
          assert j != 0 && a[1..][j - 1] == x;
        }
      }
      SortedUnique(a[1..], b[1..]);
    }
  }

  /** The keys of a `TreeMap<String, V>` ascend. */
  predicate SortedKeys<V>(m: OMap<string, V>) {
    forall i, j :: 0 <= i < j < |m| ==> Below(m[i].0, m[j].0)
  }

  /** `treeMap.put(k, v)`. */
  function TreePut<V(==, !new)>(m: OMap<string, V>, k: string, v: V): (r: OMap<string, V>)
    requires SortedKeys(m)
    ensures SortedKeys(r)
    ensures forall p :: p in r <==> p == (k, v) || (p in m && p.0 != k)
  {
    if |m| == 0 then [(k, v)]
    else if k == m[0].0 then
      assert forall p :: p in m[1..] ==> p.0 != k by {
        BelowIrreflexive(k);
      }
      [(k, v)] + m[1..]
    else if Below(k, m[0].0) then
      assert forall j :: 0 < j < |m| ==> Below(k, m[j].0) by {
        forall j | 0 < j < |m| ensures Below(k, m[j].0) {
          BelowTransitive(k, m[0].0, m[j].0);
        }
      }
      assert forall p :: p in m ==> p.0 != k by {
        BelowIrreflexive(k);
      }
      [(k, v)] + m
    else
      BelowTotal(k, m[0].0);
      var rest := TreePut(m[1..], k, v);
      assert forall p :: p in rest ==> Below(m[0].0, p.0);
      [m[0]] + rest
  }

  lemma SortedKeysUnique<V>(m: OMap<string, V>)
    requires SortedKeys(m)
    ensures UniqueKeys(m)
  {
    forall i, j | 0 <= i < j < |m| ensures m[i].0 != m[j].0 {
      BelowIrreflexive(m[i].0);
    }
  }

  /** In a map with unique keys, `get` finds exactly the stored pairs. */
  lemma GetUnique<V>(m: OMap<string, V>, k: string, v: V)
    requires UniqueKeys(m)
    ensures Get(m, k) == Some(v) <==> (k, v) in m
  {
    if (k, v) in m {
      var i :| 0 <= i < |m| && m[i] == (k, v);
      FindIs(m, k, i);
    }
  }

  /** `get` after `put` on a `TreeMap`. */
  lemma TreePutGet<V(!new)>(m: OMap<string, V>, k: string, v: V, k': string)
    requires SortedKeys(m)
    ensures Get(TreePut(m, k, v), k') == if k' == k then Some(v) else Get(m, k')
  {
    var r := TreePut(m, k, v);
    SortedKeysUnique(m);
    SortedKeysUnique(r);
    if k' == k {
      GetUnique(r, k, v);
    } else {
      match Get(m, k')
      case Some(w) =>
        GetUnique(m, k', w);
        GetUnique(r, k', w);
      case None =>
        if Get(r, k').Some? {
          GetUnique(r, k', Get(r, k').value);
          GetUnique(m, k', Get(r, k').value);
        }
    }
  }
}
