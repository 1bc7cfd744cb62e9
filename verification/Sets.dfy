/** Cardinality facts about finite sets and maps. */
module Sets {

  lemma {:induction false} SubsetSize<T>(a: set<T>, b: set<T>)
    requires a <= b
    ensures |a| <= |b|
    decreases |a|
  {
    if a != {} {
      var x :| x in a;
      SubsetSize(a - {x}, b - {x});
    }
  }

  lemma DisjointSize<T>(a: set<T>, b: set<T>)
    requires a !! b
    ensures |a + b| == |a| + |b|
  {
  }

  lemma PartitionSize<T>(whole: set<T>, a: set<T>, b: set<T>, c: set<T>, d: set<T>, e: set<T>)
    requires a !! b && a !! c && a !! d && a !! e && b !! c && b !! d && b !! e && c !! d && c !! e && d !! e
    requires whole == a + b + c + d + e
    ensures |whole| == |a| + |b| + |c| + |d| + |e|
  {
    DisjointSize(a, b);
    DisjointSize(a + b, c);
    DisjointSize(a + b + c, d);
    DisjointSize(a + b + c + d, e);
  }

  /** Moving one element from what is left to what is done. */
  lemma MoveOne<T>(done: set<T>, rest: set<T>, x: T)
    requires done !! rest && x in rest
    ensures (done + {x}) !! (rest - {x}) && (done + {x}) + (rest - {x}) == done + rest
    ensures x !in done
  {
  }

  lemma AddKeySize<K, V>(m: map<K, V>, k: K, v: V)
    requires k !in m
    ensures m[k := v].Keys == m.Keys + {k}
    ensures |m[k := v]| == |m| + 1
  {
    assert m[k := v].Keys == m.Keys + {k};
    DisjointSize(m.Keys, {k});
    assert |m[k := v]| == |m[k := v].Keys|;
  }

  lemma RemoveKeysSize<K, V>(m: map<K, V>, keys: set<K>)
    ensures (m - keys).Keys == m.Keys - keys
    ensures |m - keys| == |m| - |keys * m.Keys|
  {
    assert (m - keys).Keys == m.Keys - keys;
    assert m.Keys == (m.Keys - keys) + (keys * m.Keys);
    DisjointSize(m.Keys - keys, keys * m.Keys);
    assert |m - keys| == |(m - keys).Keys|;
  }

  lemma SameKeysSize<K, V, W>(m: map<K, V>, n: map<K, W>)
    requires m.Keys == n.Keys
    ensures |m| == |n|
  {
    assert |m| == |m.Keys| && |n| == |n.Keys|;
  }

  /** The keys of `m` are 0, 1, 2, ... without gaps. */
  ghost predicate Counting<V>(m: map<nat, V>) {
    forall g: nat :: g in m <==> g < |m|
  }

  lemma CountingGrows<V>(m: map<nat, V>, v: V)
    requires Counting(m)
    ensures |m| !in m && Counting(m[|m| := v]) && |m[|m| := v]| == |m| + 1
  {
    var next := |m|;
    assert next !in m;
    AddKeySize(m, next, v);
    var grown := m[next := v];
    forall g: nat
      ensures g in grown <==> g < |grown|
    {
      assert g in grown <==> g in m || g == next;
    }
  }

  // ---------------------------------------------------------------- sequences as sets

  function Elements<T>(s: seq<T>): set<T> {
    set x | x in s
  }

  predicate NoRepeats<T(==)>(s: seq<T>) {
    forall i, j :: 0 <= i < j < |s| ==> s[i] != s[j]
  }

  lemma NoElements<T>(s: seq<T>)
    ensures Elements(s) == {} <==> s == []
  {
    if s != [] {
      assert s[0] in Elements(s);
    }
  }

  lemma ElementsOfAppend<T>(s: seq<T>, t: seq<T>)
    ensures Elements(s + t) == Elements(s) + Elements(t)
  {
  }

  lemma {:induction false} DistinctCount<T>(s: seq<T>)
    requires NoRepeats(s)
    ensures |Elements(s)| == |s|
  {
    if s != [] {
      var front, last := s[..|s| - 1], s[|s| - 1];
      DistinctCount(front);
      assert s == front + [last];
      ElementsOfAppend(front, [last]);
      assert Elements([last]) == {last};
      DisjointSize(Elements(front), {last});
    }
  }
}
