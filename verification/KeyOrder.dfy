/** The order of cache keys with one base: by their `Vary` values. */
module KeyOrder {
  import opened Sets
  import opened Http
  import opened Keys

  /** By name, then absent before present, then by value. */
  predicate ValueLess(a: VaryValue, b: VaryValue) {
    || Less(a.name, b.name)
    || (a.name == b.name && !a.present && b.present)
    || (a.name == b.name && a.present == b.present && Less(a.value, b.value))
  }

  /** The lexicographic order of the lists. */
  predicate VaryLess(a: seq<VaryValue>, b: seq<VaryValue>) {
    if b == [] then false
    else if a == [] then true
    else ValueLess(a[0], b[0]) || (a[0] == b[0] && VaryLess(a[1..], b[1..]))
  }

  lemma ValueTransitive(a: VaryValue, b: VaryValue, c: VaryValue)
    requires ValueLess(a, b) && ValueLess(b, c)
    ensures ValueLess(a, c)
  {
    hide Less;
    if Less(a.name, b.name) && Less(b.name, c.name) {
      LessTransitive(a.name, b.name, c.name);
    }
    if Less(a.value, b.value) && Less(b.value, c.value) {
      LessTransitive(a.value, b.value, c.value);
    }
  }

  lemma ValueTotal(a: VaryValue, b: VaryValue)
    ensures a == b || ValueLess(a, b) || ValueLess(b, a)
    ensures !(ValueLess(a, b) && ValueLess(b, a))
  {
    hide Less;
    LessTotal(a.name, b.name);
    LessTotal(b.name, b.name);
    LessTotal(a.value, b.value);
  }

  lemma {:induction false} VaryTransitive(a: seq<VaryValue>, b: seq<VaryValue>, c: seq<VaryValue>)
    requires VaryLess(a, b) && VaryLess(b, c)
    ensures VaryLess(a, c)
  {
    hide ValueLess;
    if a != [] {
      if ValueLess(a[0], b[0]) && ValueLess(b[0], c[0]) {
        ValueTransitive(a[0], b[0], c[0]);
      } else if a[0] == b[0] == c[0] && VaryLess(a[1..], b[1..]) && VaryLess(b[1..], c[1..]) {
        VaryTransitive(a[1..], b[1..], c[1..]);
      }
    }
  }

  lemma {:induction false} VaryTotal(a: seq<VaryValue>, b: seq<VaryValue>)
    ensures a == b || VaryLess(a, b) || VaryLess(b, a)
    ensures !(VaryLess(a, b) && VaryLess(b, a))
  {
    hide ValueLess;
    if a != [] && b != [] {
      ValueTotal(a[0], b[0]);
      if a[0] == b[0] {
        VaryTotal(a[1..], b[1..]);
        assert a == [a[0]] + a[1..] && b == [b[0]] + b[1..];
      }
    }
  }

  // ---------------------------------------------------------------- sorted lists

  ghost predicate OneBase(keys: set<CacheKey>) {
    forall a, b :: a in keys && b in keys ==> a.base == b.base
  }

  ghost predicate Ascending(list: seq<CacheKey>) {
    forall i, j :: 0 <= i < j < |list| ==> VaryLess(list[i].vary, list[j].vary)
  }

  /** The first of some keys. */
  method FirstOf(keys: set<CacheKey>) returns (k: CacheKey)
    requires keys != {} && OneBase(keys)
    ensures k in keys && forall j :: j in keys && j != k ==> VaryLess(k.vary, j.vary)
  {
    hide VaryLess;
    k :| k in keys;
    var rest := keys - {k};
    while rest != {}
      invariant rest <= keys && k in keys - rest
      invariant forall j :: j in keys - rest && j != k ==> VaryLess(k.vary, j.vary)
      decreases |rest|
    {
      var j :| j in rest;
      VaryTotal(j.vary, k.vary);
      if VaryLess(j.vary, k.vary) {
        forall i | i in keys - rest && i != k
          ensures VaryLess(j.vary, i.vary)
        {
          VaryTransitive(j.vary, k.vary, i.vary);
        }
        k := j;
      }
      rest := rest - {j};
    }
  }

  /** `sort_unstable` on keys of one base. */
  method Sort(keys: set<CacheKey>) returns (list: seq<CacheKey>)
    requires OneBase(keys)
    ensures Ascending(list) && NoRepeats(list) && Elements(list) == keys
  {
    hide VaryLess;
    list := [];
    var rest := keys;
    while rest != {}
      invariant rest <= keys && Ascending(list) && NoRepeats(list) && Elements(list) == keys - rest
      invariant forall i, k :: 0 <= i < |list| && k in rest ==> VaryLess(list[i].vary, k.vary)
      decreases |rest|
    {
      var k := FirstOf(rest);
      ElementsOfAppend(list, [k]);
      assert Elements([k]) == {k};
      assert forall i :: 0 <= i < |list| ==> list[i] in Elements(list);
      list := list + [k];
      rest := rest - {k};
    }
  }

  /** A set of keys has one ascending list. */
  lemma {:induction false} AscendingUnique(p: seq<CacheKey>, q: seq<CacheKey>)
    requires Ascending(p) && Ascending(q) && NoRepeats(p) && NoRepeats(q) && Elements(p) == Elements(q)
    ensures p == q
    decreases |p|
  {
    hide VaryLess, Elements;
    NoElements(p);
    NoElements(q);
    if p != [] {
      SameFirst(p, q);
      ElementsOfTail(p);
      ElementsOfTail(q);
      AscendingUnique(p[1..], q[1..]);
      assert p == [p[0]] + p[1..] && q == [q[0]] + q[1..];
    }
  }

  lemma SameFirst(p: seq<CacheKey>, q: seq<CacheKey>)
    requires Ascending(p) && Ascending(q) && Elements(p) == Elements(q) && p != [] && q != []
    ensures p[0] == q[0]
  {
    hide VaryLess;
    assert p[0] in Elements(q) && q[0] in Elements(p);
    var j :| 0 <= j < |q| && q[j] == p[0];
    var i :| 0 <= i < |p| && p[i] == q[0];
    VaryTotal(p[0].vary, q[0].vary);
  }

  lemma ElementsOfTail<T>(s: seq<T>)
    requires NoRepeats(s) && s != []
    ensures Elements(s[1..]) == Elements(s) - {s[0]}
  {
    assert s == [s[0]] + s[1..];
    ElementsOfAppend([s[0]], s[1..]);
    assert forall x :: x in s[1..] ==> x != s[0];
  }
}
