/** Every step of the memory cache keeps its invariant, and what insertion does to the
    resident set. */
module CacheInvariants {
  import opened Prelude
  import opened Keys
  import opened Policy
  import opened Entries
  import opened Lru
  import opened CacheModel
  import opened Sets
  import opened KeyOrder
  import S = Shelf
  import F = Fills

  // ---------------------------------------------------------------- entries

  ghost predicate SomeOf<K(!new), V>(before: map<K, Slot<V>>, after: map<K, Slot<V>>) {
    && after.Keys <= before.Keys
    && forall k :: k in after ==> after[k].value == before[k].value && after[k].weight == before[k].weight
  }

  lemma SomeOfKeepsLabels(before: Slots, after: Slots)
    requires SomeOf(before, after) && Labelled(before) && OneSchema(before.Keys)
    ensures Labelled(after) && OneSchema(after.Keys)
  {
    forall k | k in after
      ensures LabelledAt(after[k], k)
    {
      assert LabelledAt(before[k], k);
    }
  }

  lemma DropKeepsEntries(c: Config, s: Store, keys: set<CacheKey>)
    requires EntriesInv(c, s)
    ensures EntriesInv(c, S.Drop(s, keys))
  {
    S.DropKeepsValid(s, keys, LimitsOf(c));
    SomeOfKeepsLabels(s.slots, S.Drop(s, keys).slots);
  }

  lemma TouchKeepsEntries(c: Config, s: Store, k: CacheKey)
    requires Accountable(c) && EntriesInv(c, s) && k in s.slots
    ensures EntriesInv(c, S.Touch(s, k))
  {
    S.TouchKeepsValid(s, k, LimitsOf(c));
    SomeOfKeepsLabels(s.slots, S.Touch(s, k).slots);
  }

  lemma DisplacedLeavesOneSchema(keys: set<CacheKey>, key: CacheKey, rest: set<CacheKey>)
    requires OneSchema(keys) && rest <= keys - Displaced(keys, key)
    ensures OneSchema(rest + {key})
  {
    forall a, b | a in rest + {key} && b in rest + {key} && a.base == b.base
      ensures SameSchema(a, b)
    {
    }
  }

  lemma PutLabels(before: Slots, after: Slots, e: Entry, gone: set<CacheKey>)
    requires Labelled(before)
    requires S.PutOver(before, after, e.key, e, e.charge, gone)
    ensures Labelled(after)
  {
    forall k | k in after
      ensures LabelledAt(after[k], k)
    {
      if k == e.key {
      } else {
        assert LabelledAt(before[k], k);
      }
    }
  }

  /** Both limits hold after every insertion, the byte count is the exact sum, and no base
      ends up with two schemas. */
  lemma InsertKeepsEntries(c: Config, s: Store, e: Entry, evicted: set<CacheKey>)
    requires Accountable(c) && EntriesInv(c, s) && SizedEntry(c, e)
    requires IsShortestPrefix(s.slots - Displaced(s.slots.Keys, e.key), evicted, RoomFor(c, e))
    ensures EntriesInv(c, Insert(s, e, evicted))
    ensures S.PutOver(s.slots, Insert(s, e, evicted).slots, e.key, e, e.charge,
                      Displaced(s.slots.Keys, e.key) + evicted)
  {
    var displaced := Displaced(s.slots.Keys, e.key);
    var gone := displaced + evicted;
    MinusTwice(s.slots, displaced, evicted);
    S.PutKeepsValid(s, gone, e.key, e, e.charge, LimitsOf(c));
    var after := Insert(s, e, evicted).slots;
    PutLabels(s.slots, after, e, gone);
    DisplacedLeavesOneSchema(s.slots.Keys, e.key, s.slots.Keys - gone);
  }

  /** The report is exact: the removed keys are the old keys that are gone, plus the
      inserted key if it replaced an entry. */
  lemma DeltaIsExact(c: Config, s: Store, e: Entry, delta: Delta)
    requires Accountable(c) && EntriesInv(c, s) && SizedEntry(c, e)
    requires IsDelta(c, s.slots, e, delta)
    ensures var after := Insert(s, e, Elements(EvictedBy(delta))).slots.Keys;
            && after == s.slots.Keys - Elements(delta.removed) + {e.key}
            && Elements(delta.removed) == (s.slots.Keys - after) + ({e.key} * s.slots.Keys)
  {
    hide EntriesInv, SizedEntry, RoomFor, Insert, Displaced, IsShortestPrefix, OldestFirst, NoRepeats, Elements,
         EvictedBy, DisplacedBy;
    var evicted := Elements(EvictedBy(delta));
    InsertKeepsEntries(c, s, e, evicted);
    RemovedSplits(delta);
    DisplacedParts(s.slots, e.key, evicted, RoomFor(c, e));
    ExactKeys(s.slots.Keys, Insert(s, e, evicted).slots.Keys, Displaced(s.slots.Keys, e.key), evicted, e.key);
  }

  /** Nothing is reported twice, and `evicted` counts the evicted keys. */
  lemma DeltaCounts(c: Config, slots: Slots, e: Entry, delta: Delta)
    requires IsDelta(c, slots, e, delta)
    ensures |delta.removed| == |Elements(delta.removed)|
    ensures delta.evicted == |Elements(EvictedBy(delta))|
  {
    DistinctCount(delta.removed);
    OldestFirstNoRepeats(slots, EvictedBy(delta));
    DistinctCount(EvictedBy(delta));
  }

  lemma DisplacedParts(slots: Slots, key: CacheKey, evicted: set<CacheKey>, room: Room)
    requires IsShortestPrefix(slots - Displaced(slots.Keys, key), evicted, room)
    ensures Displaced(slots.Keys, key) <= slots.Keys && evicted <= slots.Keys - Displaced(slots.Keys, key)
    ensures key in slots ==> key in Displaced(slots.Keys, key)
  {
    hide NoShorterFits, Fits;
  }

  lemma RemovedSplits(delta: Delta)
    requires delta.evicted <= |delta.removed|
    ensures Elements(delta.removed) == Elements(DisplacedBy(delta)) + Elements(EvictedBy(delta))
  {
    assert delta.removed == DisplacedBy(delta) + EvictedBy(delta);
    ElementsOfAppend(DisplacedBy(delta), EvictedBy(delta));
  }

  lemma ExactKeys<K>(before: set<K>, after: set<K>, displaced: set<K>, evicted: set<K>, key: K)
    requires after == before - (displaced + evicted) + {key}
    requires displaced <= before && evicted <= before - displaced
    requires key in before ==> key in displaced
    ensures after == before - (displaced + evicted) + {key}
    ensures displaced + evicted == (before - after) + ({key} * before)
  {
  }

  /** What insertion does and reports is determined by the state: the loop has no choice. */
  lemma InsertionDetermined(c: Config, s: Mem, e: Entry, d1: Delta, s1: Mem, d2: Delta, s2: Mem)
    requires Inserted(c, s, e, d1, s1) && Inserted(c, s, e, d2, s2)
    ensures s1 == s2 && d1 == d2
  {
    hide Insert, IsShortestPrefix, Displaced, Elements, NoRepeats, OldestFirst, ReplacedFirst, EvictedBy, DisplacedBy;
    var slots := s.shelf.slots;
    ShortestPrefixUnique(slots - Displaced(slots.Keys, e.key), Elements(EvictedBy(d1)), Elements(EvictedBy(d2)),
                         RoomFor(c, e));
    OldestFirstUnique(slots, EvictedBy(d1), EvictedBy(d2));
    ReportSplits(d1);
    ReportSplits(d2);
    SameDisplaced(e.key in slots, e.key, DisplacedBy(d1), DisplacedBy(d2));
  }

  lemma ReportSplits(delta: Delta)
    requires delta.evicted <= |delta.removed| && NoRepeats(delta.removed)
    ensures delta.removed == DisplacedBy(delta) + EvictedBy(delta) && |EvictedBy(delta)| == delta.evicted
    ensures NoRepeats(DisplacedBy(delta))
  {
  }

  lemma SameDisplaced(replaced: bool, key: CacheKey, p: seq<CacheKey>, q: seq<CacheKey>)
    requires NoRepeats(p) && NoRepeats(q) && Elements(p) == Elements(q)
    requires ReplacedFirst(replaced, key, p) && ReplacedFirst(replaced, key, q)
    ensures p == q
  {
    hide Ascending, Elements;
    if replaced {
      ElementsOfTail(p);
      ElementsOfTail(q);
      AscendingUnique(p[1..], q[1..]);
      assert p == [key] + p[1..] && q == [key] + q[1..];
    } else {
      assert p[0..] == p && q[0..] == q;
      AscendingUnique(p, q);
    }
  }

  // ---------------------------------------------------------------- fills and counters

  lemma SettleKeepsFills(c: Config, f: F.Fills<BaseKey>, bases: set<BaseKey>, outcome: F.FillOutcome)
    requires FillsInv(c, f) && outcome != F.Filling
    ensures FillsInv(c, F.Settle(f, bases, outcome))
  {
    F.SettleKeepsInv(f, bases, outcome, c.maxInFlight, c.maxFollowersPerFill);
  }

  /** A settled flight is counted under its outcome and nowhere else. */
  lemma SettleCounters(c: Config, stats: Stats, f: F.Fills<BaseKey>, bases: set<BaseKey>, outcome: F.FillOutcome)
    requires FillsInv(c, f) && CountersInv(stats, f)
    ensures var t := F.Settle(f, bases, outcome);
            var n := |bases * f.flights.Keys|;
            && (outcome == F.Kept ==> CountersInv(stats.(stores := SatAdd(stats.stores, n)), t))
            && (outcome == F.NotStored ==> CountersInv(stats, t))
            && (outcome == F.Cancelled || outcome == F.Purged ==> CountersInv(WithCancelled(stats, n), t))
  {
    hide F.Settle, F.Ended, F.FlightsOpen, F.OpenFlies, F.Numbered;
    if outcome != F.Filling {
      F.SettleCounts(f, bases, outcome);
      F.SettleCardinalities(f, bases, outcome);
    }
  }

  lemma CancelKeepsInv(c: Config, s: Mem, bases: set<BaseKey>, outcome: F.FillOutcome)
    requires FillsInv(c, s.fills) && CountersInv(s.stats, s.fills)
    requires outcome == F.Cancelled || outcome == F.Purged
    ensures FillsInv(c, Cancel(s, bases, outcome).fills)
    ensures CountersInv(Cancel(s, bases, outcome).stats, Cancel(s, bases, outcome).fills)
  {
    SettleKeepsFills(c, s.fills, bases, outcome);
    SettleCounters(c, s.stats, s.fills, bases, outcome);
  }

  lemma OneCurrent(s: Mem, g: Guard)
    requires IsCurrent(s, g)
    ensures |{g.base} * s.fills.flights.Keys| == 1
  {
    assert {g.base} * s.fills.flights.Keys == {g.base};
  }

  // ---------------------------------------------------------------- one lemma per kind of step

  ghost predicate SameFillCounters(a: Stats, b: Stats) {
    a.fillLeaders == b.fillLeaders && a.stores == b.stores && a.fillCancelled == b.fillCancelled
  }

  /** What a lookup can do to the store: nothing, drop the one expired match, or move the
      answered entry to the front. */
  ghost predicate LookupEffect(s: Store, found: Option<CacheKey>, result: LookupResult, s': Store) {
    match result
    case Hit(_, response) => found == Some(response.key) && response.key in s.slots && s' == S.Touch(s, response.key)
    case Conditional(response, _, _) => found == Some(response.key) && response.key in s.slots
                                        && s' == S.Touch(s, response.key)
    case Miss(_, base) =>
      s' == s || (found.Some? && found.value in s.slots && found.value.base == base && s' == S.Drop(s, {found.value}))
    case _ => s' == s
  }

  lemma LookupEffects(s: Mem, ask: Ask, matching: set<CacheKey>, now: Duration, found: Option<CacheKey>,
                      result: LookupResult, s': Mem)
    requires Labelled(s.shelf.slots)
    requires Looked(s, ask, matching, now, found, result, s')
    ensures LookupEffect(s.shelf, found, result, s'.shelf)
    ensures s'.fills == s.fills && SameFillCounters(s.stats, s'.stats)
  {
    if ask.AskFor? && found.Some? {
      assert LabelledAt(s.shelf.slots[found.value], found.value);
    }
  }

  lemma LookupKeepsInv(c: Config, s: Mem, ask: Ask, matching: set<CacheKey>, now: Duration, found: Option<CacheKey>,
                       result: LookupResult, s': Mem)
    requires Accountable(c) && Inv(c, s) && Looked(s, ask, matching, now, found, result, s')
    ensures Inv(c, s')
  {
    LookupEffects(s, ask, matching, now, found, result, s');
    EffectKeepsEntries(c, s.shelf, found, result, s'.shelf);
  }

  lemma EffectKeepsEntries(c: Config, s: Store, found: Option<CacheKey>, result: LookupResult, s': Store)
    requires Accountable(c) && EntriesInv(c, s) && LookupEffect(s, found, result, s')
    ensures EntriesInv(c, s')
  {
    if s' != s {
      var k := found.value;
      if result.Miss? {
        DropKeepsEntries(c, s, {k});
      } else {
        TouchKeepsEntries(c, s, k);
      }
    }
  }

  lemma ErrorKeepsInv(c: Config, s: Mem, key: CacheKey, now: Duration, response: Option<Response>, s': Mem)
    requires Accountable(c) && Inv(c, s) && ServedOnError(s, key, now, response, s')
    ensures Inv(c, s')
  {
    if response.Some? {
      TouchKeepsEntries(c, s.shelf, key);
    }
  }

  lemma BeginKeepsInv(c: Config, owner: nat, s: Mem, base: BaseKey, join: Join, s': Mem)
    requires Inv(c, s) && Begun(c, owner, s, base, join, s')
    ensures Inv(c, s')
  {
    match join
    case Leader(_) =>
      F.LeadKeepsInv(s.fills, base, c.maxInFlight, c.maxFollowersPerFill);
      F.LeadCounts(s.fills, base);
    case Follower(_) =>
      F.FollowKeepsInv(s.fills, base, c.maxInFlight, c.maxFollowersPerFill);
      F.FollowCounts(s.fills, base);
    case _ =>
  }

  lemma PublishKeepsInv(c: Config, s: Mem, g: Guard, e: Entry, delta: Option<Delta>, s': Mem)
    requires Accountable(c) && Inv(c, s) && SizedEntry(c, e) && Published(c, s, g, e, delta, s')
    ensures Inv(c, s')
  {
    if IsCurrent(s, g) {
      InsertKeepsEntries(c, s.shelf, e, Elements(EvictedBy(delta.value)));
      SettleKeepsFills(c, s.fills, {g.base}, F.Kept);
      OneCurrent(s, g);
      SettleCounters(c, s.stats, s.fills, {g.base}, F.Kept);
    }
  }

  lemma CompleteKeepsInv(c: Config, s: Mem, g: Guard, done: bool, s': Mem)
    requires Inv(c, s) && Completed(s, g, done, s')
    ensures Inv(c, s')
  {
    if done {
      SettleKeepsFills(c, s.fills, {g.base}, F.NotStored);
      SettleCounters(c, s.stats, s.fills, {g.base}, F.NotStored);
    }
  }

  lemma AbandonKeepsInv(c: Config, s: Mem, g: Guard)
    requires Inv(c, s)
    ensures Inv(c, Abandoned(s, g))
  {
    if IsCurrent(s, g) {
      CancelKeepsInv(c, s, {g.base}, F.Cancelled);
    }
  }

  lemma PurgeKeepsInv(c: Config, s: Mem, keys: set<CacheKey>, bases: set<BaseKey>, result: PurgeResult, s': Mem)
    requires Inv(c, s) && PurgedAway(s, keys, bases, result, s')
    ensures Inv(c, s')
  {
    DropKeepsEntries(c, s.shelf, keys);
    CancelKeepsInv(c, s, bases, F.Purged);
  }

  lemma RestoreKeepsInv(c: Config, s: Mem, e: Entry, delta: Delta, s': Mem)
    requires Accountable(c) && Inv(c, s) && SizedEntry(c, e) && Inserted(c, s, e, delta, s')
    ensures Inv(c, s')
  {
    InsertKeepsEntries(c, s.shelf, e, Elements(EvictedBy(delta)));
  }

  lemma InitInv(c: Config)
    ensures Inv(c, EMPTY)
  {
    var f := EMPTY.fills;
    assert F.Ended(f, F.Kept) == {} && F.Ended(f, F.Cancelled) == {} && F.Ended(f, F.Purged) == {};
  }

  /** Every step of the cache keeps the invariant. */
  lemma StepKeepsInv(c: Config, owner: nat, s: Mem, event: Event, s': Mem)
    requires Accountable(c) && Inv(c, s) && Step(c, owner, s, event, s')
    ensures Inv(c, s')
  {
    match event
    case LookupEvent(ask, matching, now, found, result) => LookupKeepsInv(c, s, ask, matching, now, found, result, s');
    case ErrorEvent(key, now, response) => ErrorKeepsInv(c, s, key, now, response, s');
    case BeginEvent(base, join) => BeginKeepsInv(c, owner, s, base, join, s');
    case PublishEvent(g, e, delta) => PublishKeepsInv(c, s, g, e, delta, s');
    case CompleteEvent(g, done) => CompleteKeepsInv(c, s, g, done, s');
    case AbandonEvent(g) => AbandonKeepsInv(c, s, g);
    case PurgeKeyEvent(key, result) => PurgeKeepsInv(c, s, {key} * s.shelf.slots.Keys, {key.base}, result, s');
    case PurgeBaseEvent(base, result) => PurgeKeepsInv(c, s, KeysOfBase(s.shelf.slots.Keys, base), {base}, result, s');
    case PurgeTagEvent(tag, result) =>
      PurgeKeepsInv(c, s, KeysWithTag(s.shelf.slots, tag), BasesOf(KeysWithTag(s.shelf.slots, tag)), result, s');
    case CancelAllEvent => CancelKeepsInv(c, s, s.fills.flights.Keys, F.Cancelled);
    case RemoveEvent(key, removed) => DropKeepsEntries(c, s.shelf, {key});
    case RestoreEvent(e, delta) => RestoreKeepsInv(c, s, e, delta.value, s');
    case RejectEvent =>
  }
}
