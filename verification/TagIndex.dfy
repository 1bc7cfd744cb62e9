/** The tag index of the disk state: for every tag the keys of the records that carry it.
    Generic in keys and tags. */
module TagIndex {

  /** The index lists `k` under `tag`. */
  predicate Tagged<K(==), T(==)>(tags: map<T, set<K>>, tag: T, k: K) {
    tag in tags && k in tags[tag]
  }

  ghost predicate NoEmptySets<K, T(!new)>(tags: map<T, set<K>>) {
    forall tag :: tag in tags ==> tags[tag] != {}
  }

  /** The index is exactly the relation "record `k` carries the tag", with no empty sets. */
  ghost predicate Exact<K(!new), T(!new)>(tags: map<T, set<K>>, carried: map<K, seq<T>>) {
    && NoEmptySets(tags)
    && forall tag, k :: Tagged(tags, tag, k) <==> k in carried && tag in carried[k]
  }

  /** There is only one exact index. */
  lemma ExactUnique<K(!new), T(!new)>(p: map<T, set<K>>, q: map<T, set<K>>, carried: map<K, seq<T>>)
    requires Exact(p, carried) && Exact(q, carried)
    ensures p == q
  {
    forall tag | tag in p
      ensures tag in q && p[tag] == q[tag]
    {
      SameSets(p, q, carried, tag);
    }
    forall tag | tag in q
      ensures tag in p
    {
      SameSets(q, p, carried, tag);
    }
  }

  lemma SameSets<K(!new), T(!new)>(p: map<T, set<K>>, q: map<T, set<K>>, carried: map<K, seq<T>>, tag: T)
    requires Exact(p, carried) && Exact(q, carried) && tag in p
    ensures tag in q && p[tag] == q[tag]
  {
    var k :| k in p[tag];
    assert Tagged(p, tag, k) && Tagged(q, tag, k);
    forall j
      ensures j in p[tag] <==> j in q[tag]
    {
      assert Tagged(p, tag, j) <==> Tagged(q, tag, j);
    }
  }

  /** One turn of the loop in `State::insert`. */
  function Tag<K(==), T(==)>(tags: map<T, set<K>>, tag: T, k: K): map<T, set<K>> {
    tags[tag := (if tag in tags then tags[tag] else {}) + {k}]
  }

  /** One turn of the loop in `State::remove`. */
  function Untag<K(==), T(==)>(tags: map<T, set<K>>, tag: T, k: K): map<T, set<K>> {
    if tag !in tags then tags
    else if tags[tag] - {k} == {} then tags - {tag}
    else tags[tag := tags[tag] - {k}]
  }

  /** `now` lists what `before` lists and also `k` under the given tags. */
  ghost predicate Adding<K(!new), T(!new)>(before: map<T, set<K>>, now: map<T, set<K>>, k: K, added: seq<T>) {
    && NoEmptySets(now)
    && forall tag, j :: Tagged(now, tag, j) <==> Tagged(before, tag, j) || (j == k && tag in added)
  }

  lemma TagOneMore<K(!new), T(!new)>(before: map<T, set<K>>, now: map<T, set<K>>, k: K, added: seq<T>, tag: T)
    requires Adding(before, now, k, added)
    ensures Adding(before, Tag(now, tag, k), k, added + [tag])
  {
    var next := Tag(now, tag, k);
    forall t, j
      ensures Tagged(next, t, j) <==> Tagged(now, t, j) || (t == tag && j == k)
    {
    }
    assert forall t :: t in added + [tag] <==> t in added || t == tag;
  }

  /** `now` lists what `before` lists except `k` under the given tags. */
  ghost predicate Removing<K(!new), T(!new)>(before: map<T, set<K>>, now: map<T, set<K>>, k: K, removed: seq<T>) {
    && NoEmptySets(now)
    && forall tag, j :: Tagged(now, tag, j) <==> Tagged(before, tag, j) && !(j == k && tag in removed)
  }

  lemma UntagOneMore<K(!new), T(!new)>(before: map<T, set<K>>, now: map<T, set<K>>, k: K, removed: seq<T>, tag: T)
    requires Removing(before, now, k, removed)
    ensures Removing(before, Untag(now, tag, k), k, removed + [tag])
  {
    var next := Untag(now, tag, k);
    forall t, j
      ensures Tagged(next, t, j) <==> Tagged(now, t, j) && !(t == tag && j == k)
    {
      assert tag in now ==> (j in now[tag] - {k} <==> j in now[tag] && j != k);
    }
    assert forall t :: t in removed + [tag] <==> t in removed || t == tag;
  }
}
