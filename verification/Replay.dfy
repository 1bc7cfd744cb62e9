/** Filling an empty memory cache with a list of entries, oldest first: which of them are there
    at the end. */
module Replay {
  import opened Sets
  import opened Lru
  import opened Keys
  import opened Entries
  import opened CacheModel
  import opened Rebuild

  // ---------------------------------------------------------------- prefixes

  /** Evicting a little at every insertion of a newest key comes to evicting once, at the end. */
  lemma PrefixGrows<K(!new), V>(t: map<K, Slot<V>>, p: set<K>, evicted: set<K>, k: K, slot: Slot<V>, maxCount: nat,
                                maxWeight: nat)
    requires k !in t && forall j :: j in t ==> t[j].stamp < slot.stamp
    requires IsShortestPrefix(t, p, Limit(maxCount, maxWeight))
    requires IsShortestPrefix(t - p, evicted, Room(slot.weight, maxCount, maxWeight))
    ensures IsShortestPrefix(t[k := slot], p + evicted, Limit(maxCount, maxWeight))
  {
    hide Fits, NoShorterFits;
    assert IsPrefix(t[k := slot], p + evicted);
    OneMoreFits(t - p - evicted, k, slot, maxCount, maxWeight);
    assert t[k := slot] - (p + evicted) == (t - p - evicted)[k := slot];
    forall shorter: set<K> | IsPrefix(t[k := slot], shorter) && shorter < p + evicted
      ensures !Fits(t[k := slot] - shorter, Limit(maxCount, maxWeight))
    {
      ShorterTooMuch(t, p, evicted, k, slot, maxCount, maxWeight, shorter);
    }
    assert NoShorterFits(t[k := slot], p + evicted, Limit(maxCount, maxWeight)) by {
      AllShorter(t[k := slot], p + evicted, Limit(maxCount, maxWeight));
    }
  }

  lemma AllShorter<K(!new), V>(t: map<K, Slot<V>>, dropped: set<K>, room: Room)
    requires forall shorter: set<K> :: IsPrefix(t, shorter) && shorter < dropped ==> !Fits(t - shorter, room)
    ensures NoShorterFits(t, dropped, room)
  {
  }

  lemma OneMoreFits<K, V>(t: map<K, Slot<V>>, k: K, slot: Slot<V>, maxCount: nat, maxWeight: nat)
    requires k !in t
    ensures Fits(t[k := slot], Limit(maxCount, maxWeight)) <==> Fits(t, Room(slot.weight, maxCount, maxWeight))
  {
    WeightInsert(t, k, slot);
    AddKeySize(t, k, slot);
  }

  lemma ShorterTooMuch<K(!new), V>(t: map<K, Slot<V>>, p: set<K>, evicted: set<K>, k: K, slot: Slot<V>, maxCount: nat,
                                   maxWeight: nat, shorter: set<K>)
    requires k !in t && IsShortestPrefix(t, p, Limit(maxCount, maxWeight))
    requires IsShortestPrefix(t - p, evicted, Room(slot.weight, maxCount, maxWeight))
    requires IsPrefix(t[k := slot], shorter) && shorter < p + evicted
    ensures !Fits(t[k := slot] - shorter, Limit(maxCount, maxWeight))
  {
    hide Fits;
    assert IsPrefix(t, shorter);
    assert t[k := slot] - shorter == (t - shorter)[k := slot];
    PrefixesNest(t, shorter, p);
    if p <= shorter {
      assert IsPrefix(t - p, shorter - p) && shorter - p < evicted;
      assert t - p - (shorter - p) == t - shorter;
      OneMoreFits(t - shorter, k, slot, maxCount, maxWeight);
    } else {
      assert shorter < p;
      MoreNeverFits(t - shorter, k, slot, maxCount, maxWeight);
    }
  }

  lemma MoreNeverFits<K, V>(t: map<K, Slot<V>>, k: K, slot: Slot<V>, maxCount: nat, maxWeight: nat)
    requires k !in t && !Fits(t, Limit(maxCount, maxWeight))
    ensures !Fits(t[k := slot], Limit(maxCount, maxWeight))
  {
    WeightInsert(t, k, slot);
    AddKeySize(t, k, slot);
  }

  lemma WithinIsFits<K, V>(t: map<K, Slot<V>>, maxCount: nat, maxWeight: nat)
    ensures Fits(t, Limit(maxCount, maxWeight)) <==> |t| <= maxCount && Weight(t) <= maxWeight
  {
  }

  /** A part of a table gives up no more than the whole: what a whole table may keep, every part
      of it keeps. */
  lemma PartKeeps<K(!new), V, W>(t: map<K, Slot<V>>, p: set<K>, u: map<K, Slot<W>>, q: set<K>, maxCount: nat,
                                 maxWeight: nat)
    requires u.Keys <= t.Keys && (forall j :: j in u ==> u[j].weight == t[j].weight)
    requires forall a, b :: a in u && b in u ==> (u[a].stamp < u[b].stamp <==> t[a].stamp < t[b].stamp)
    requires IsPrefix(t, p) && Fits(t - p, Limit(maxCount, maxWeight))
    requires IsShortestPrefix(u, q, Limit(maxCount, maxWeight))
    ensures q <= p
  {
    hide Fits;
    var cut := p * u.Keys;
    assert IsPrefix(u, cut);
    PartFits(u - cut, t - p, maxCount, maxWeight);
    PrefixesNest(u, q, cut);
  }

  lemma PartFits<K, V, W>(u: map<K, Slot<W>>, t: map<K, Slot<V>>, maxCount: nat, maxWeight: nat)
    requires u.Keys <= t.Keys && (forall j :: j in u ==> u[j].weight == t[j].weight)
    requires Fits(t, Limit(maxCount, maxWeight))
    ensures Fits(u, Limit(maxCount, maxWeight))
  {
    assert Part(t, u.Keys).Keys == u.Keys;
    SameWeights(u, Part(t, u.Keys));
    PartWeight(t, u.Keys);
    SubsetSize(u.Keys, t.Keys);
    assert |u| == |u.Keys| && |t| == |t.Keys|;
  }

  /** The slots at least as new as that of this key. */
  ghost function Since<K(!new), V>(t: map<K, Slot<V>>, k: K): map<K, Slot<V>>
    requires k in t
  {
    map j | j in t && t[k].stamp <= t[j].stamp :: t[j]
  }

  /** A key outlives the cut exactly when it and everything newer fit. */
  lemma StaysIff<K(!new), V>(t: map<K, Slot<V>>, p: set<K>, k: K, maxCount: nat, maxWeight: nat)
    requires k in t && IsShortestPrefix(t, p, Limit(maxCount, maxWeight))
    ensures k !in p <==> Fits(Since(t, k), Limit(maxCount, maxWeight))
  {
    hide Fits;
    var older := set j | j in t && t[j].stamp < t[k].stamp;
    assert IsPrefix(t, older) && t - older == Since(t, k);
    if k !in p {
      assert p <= older;
      PartFits(Since(t, k), t - p, maxCount, maxWeight);
    } else if Fits(Since(t, k), Limit(maxCount, maxWeight)) {
      PrefixesNest(t, p, older);
    }
  }

  // ---------------------------------------------------------------- the restoring loop

  /** One insertion: conflicting entries go, then the shortest least recently used prefix of the
      others that makes room. */
  ghost predicate Turn(c: Config, goal: Slots, k: CacheKey, before: set<CacheKey>, evicted: set<CacheKey>,
                       after: set<CacheKey>) {
    && k in goal && before <= goal.Keys
    && var rest := Part(goal, before - Conflicting(before, k));
       && IsShortestPrefix(rest, evicted, Room(goal[k].weight, c.maxEntries, c.maxTotalBytes))
       && after == rest.Keys - evicted + {k}
  }

  /** What is resident after the first `n` insertions. */
  ghost predicate Replayed(c: Config, goal: Slots, list: seq<CacheKey>, n: nat, resident: set<CacheKey>)
    requires n <= |list|
  {
    if n == 0 then resident == {}
    else
      var k := list[n - 1];
      exists before, evicted :: Replayed(c, goal, list, n - 1, before) && Turn(c, goal, k, before, evicted, resident)
  }

  /** The loop has no choice. */
  lemma {:induction false} ReplayDetermined(c: Config, goal: Slots, list: seq<CacheKey>, n: nat, a: set<CacheKey>,
                                            b: set<CacheKey>)
    requires n <= |list| && Replayed(c, goal, list, n, a) && Replayed(c, goal, list, n, b)
    ensures a == b
  {
    hide Turn;
    if n > 0 {
      var k := list[n - 1];
      var before, evicted :| Replayed(c, goal, list, n - 1, before) && Turn(c, goal, k, before, evicted, a);
      var before', evicted' :| Replayed(c, goal, list, n - 1, before') && Turn(c, goal, k, before', evicted', b);
      ReplayDetermined(c, goal, list, n - 1, before, before');
      TurnDetermined(c, goal, k, before, evicted, a, evicted', b);
    }
  }

  lemma TurnDetermined(c: Config, goal: Slots, k: CacheKey, before: set<CacheKey>, evicted: set<CacheKey>,
                       a: set<CacheKey>, evicted': set<CacheKey>, b: set<CacheKey>)
    requires Turn(c, goal, k, before, evicted, a) && Turn(c, goal, k, before, evicted', b)
    ensures a == b
  {
    hide IsShortestPrefix;
    ShortestPrefixUnique(Part(goal, before - Conflicting(before, k)), evicted, evicted',
                         Room(goal[k].weight, c.maxEntries, c.maxTotalBytes));
  }

  /** Without conflicting schemas the outcome has a closed form: the shortest oldest prefix goes
      whose removal makes the rest fit. */
  ghost predicate Outcome(c: Config, goal: Slots, resident: set<CacheKey>) {
    && resident <= goal.Keys
    && IsShortestPrefix(goal, goal.Keys - resident, Limit(c.maxEntries, c.maxTotalBytes))
  }

  lemma {:induction false} ReplayOutcome(c: Config, goal: Slots, list: seq<CacheKey>, n: nat, resident: set<CacheKey>)
    requires n <= |list| && Replayed(c, goal, list, n, resident) && OldestFirst(goal, list) && OneSchema(goal.Keys)
    ensures Outcome(c, Part(goal, Elements(list[..n])), resident)
  {
    hide Turn, Outcome, OldestFirst, OneSchema, Part, Elements;
    if n == 0 {
      NothingOut(c, goal, list);
    } else {
      var k := list[n - 1];
      var before, evicted :| Replayed(c, goal, list, n - 1, before) && Turn(c, goal, k, before, evicted, resident);
      ReplayOutcome(c, goal, list, n - 1, before);
      OutcomeMore(c, goal, list, n, before, evicted, resident);
    }
  }

  lemma NothingOut(c: Config, goal: Slots, list: seq<CacheKey>)
    ensures Outcome(c, Part(goal, Elements(list[..0])), {})
  {
    var none := Part(goal, Elements(list[..0]));
    assert none == map[] && none - {} == none;
  }

  lemma OutcomeMore(c: Config, goal: Slots, list: seq<CacheKey>, n: nat, before: set<CacheKey>, evicted: set<CacheKey>,
                    resident: set<CacheKey>)
    requires 0 < n <= |list| && OldestFirst(goal, list) && OneSchema(goal.Keys)
    requires Outcome(c, Part(goal, Elements(list[..n - 1])), before)
             && Turn(c, goal, list[n - 1], before, evicted, resident)
    ensures Outcome(c, Part(goal, Elements(list[..n])), resident)
  {
    hide IsShortestPrefix, Elements, OldestFirst, OneSchema, Conflicting;
    var k, t := list[n - 1], Part(goal, Elements(list[..n - 1]));
    var p := t.Keys - before;
    NextKey(goal, list, n);
    NoConflict(goal.Keys, before, k);
    assert before - {} == before;
    assert Part(goal, before) == t - p;
    PrefixGrows(t, p, evicted, k, goal[k], c.maxEntries, c.maxTotalBytes);
    EvictedInside(t - p, evicted, Room(goal[k].weight, c.maxEntries, c.maxTotalBytes));
    assert t[k := goal[k]].Keys - resident == p + evicted;
  }

  lemma NextKey(goal: Slots, list: seq<CacheKey>, n: nat)
    requires 0 < n <= |list| && OldestFirst(goal, list)
    ensures var k, t := list[n - 1], Part(goal, Elements(list[..n - 1]));
            && k in goal && k !in t && (forall j :: j in t ==> t[j].stamp < goal[k].stamp)
            && Part(goal, Elements(list[..n])) == t[k := goal[k]]
  {
    assert list[..n] == list[..n - 1] + [list[n - 1]];
    ElementsOfAppend(list[..n - 1], [list[n - 1]]);
  }

  lemma NoConflict(keys: set<CacheKey>, before: set<CacheKey>, k: CacheKey)
    requires OneSchema(keys) && before <= keys && k in keys
    ensures Conflicting(before, k) == {}
  {
  }

  lemma EvictedInside<K(!new), V>(t: map<K, Slot<V>>, evicted: set<K>, room: Room)
    requires IsShortestPrefix(t, evicted, room)
    ensures evicted <= t.Keys
  {
  }

  /** Where all entries fit at once, all are kept. */
  lemma RoomyKeepsAll(c: Config, goal: Slots, resident: set<CacheKey>)
    requires Outcome(c, goal, resident) && Fits(goal, Limit(c.maxEntries, c.maxTotalBytes))
    ensures resident == goal.Keys
  {
    NoEviction(goal, goal.Keys - resident, Limit(c.maxEntries, c.maxTotalBytes));
  }
}
