/** What the steps of the cache do to its residents and fills, one by one, and what its
    counters count. */
module CacheEffects {
  import opened Prelude
  import opened Http
  import opened Keys
  import opened Policy
  import opened Entries
  import opened Lru
  import opened Sets
  import opened CacheModel
  import opened CacheInvariants
  import opened CacheRuns
  import S = Shelf
  import F = Fills

  // ---------------------------------------------------------------- purges

  predicate IsPurge(event: Event) {
    event.PurgeKeyEvent? || event.PurgeBaseEvent? || event.PurgeTagEvent?
  }

  /** The purge is aimed at this resident. */
  predicate AimedAt(event: Event, k: CacheKey, e: Entry) {
    match event
    case PurgeKeyEvent(key, _) => k == key
    case PurgeBaseEvent(base, _) => k.base == base
    case PurgeTagEvent(tag, _) => tag in e.tags
    case _ => false
  }

  /** The purge is aimed at fills of this base. */
  ghost predicate AimedAtFill(slots: Slots, event: Event, base: BaseKey) {
    match event
    case PurgeKeyEvent(key, _) => base == key.base
    case PurgeBaseEvent(b, _) => base == b
    case PurgeTagEvent(_, _) => exists k :: k in slots && k.base == base && AimedAt(event, k, slots[k].value)
    case _ => false
  }

  /** A purge removes the residents it is aimed at and leaves the others as they are; it ends the
      fills of their bases and no others; and it reports how many entries, bytes and fills went. */
  lemma PurgeIsExact(c: Config, owner: nat, s: Mem, event: Event, s': Mem)
    requires Inv(c, s) && Step(c, owner, s, event, s') && IsPurge(event)
    ensures var m, m' := s.shelf.slots, s'.shelf.slots;
            && (forall k :: k in m' <==> k in m && !AimedAt(event, k, m[k].value))
            && (forall k :: k in m' ==> m'[k] == m[k])
            && event.purge.entries == |m| - |m'| && event.purge.bytes == s.shelf.bytes - s'.shelf.bytes
    ensures var f, f' := s.fills.flights, s'.fills.flights;
            && (forall b :: b in f' <==> b in f && !AimedAtFill(s.shelf.slots, event, b))
            && (forall b :: b in f' ==> f'[b] == f[b])
            && event.purge.fillsCancelled == |f| - |f'|
  {
    hide Inv, PurgedAway, AimedAt, AimedAtFill, KeysOfBase, KeysWithTag, BasesOf;
    var m := s.shelf.slots;
    var keys, bases;
    match event {
      case PurgeKeyEvent(key, purge) => keys, bases := {key} * m.Keys, {key.base};
      case PurgeBaseEvent(base, purge) => keys, bases := KeysOfBase(m.Keys, base), {base};
      case PurgeTagEvent(tag, purge) => keys, bases := KeysWithTag(m, tag), BasesOf(KeysWithTag(m, tag));
    }
    PurgedLeaves(c, s, keys, bases, event.purge, s');
    AimIs(m, event);
  }

  /** The keys and bases of each kind of purge are those it is aimed at. */
  lemma AimIs(m: Slots, event: Event)
    ensures event.PurgeKeyEvent? ==>
              && (forall k :: k in m ==> (k in {event.key} * m.Keys <==> AimedAt(event, k, m[k].value)))
              && forall b :: b in {event.key.base} <==> AimedAtFill(m, event, b)
    ensures event.PurgeBaseEvent? ==>
              && (forall k :: k in m ==> (k in KeysOfBase(m.Keys, event.base) <==> AimedAt(event, k, m[k].value)))
              && forall b :: b in {event.base} <==> AimedAtFill(m, event, b)
    ensures event.PurgeTagEvent? ==>
              && (forall k :: k in m ==> (k in KeysWithTag(m, event.tag) <==> AimedAt(event, k, m[k].value)))
              && forall b :: b in BasesOf(KeysWithTag(m, event.tag)) <==> AimedAtFill(m, event, b)
  {
  }

  lemma PurgedLeaves(c: Config, s: Mem, keys: set<CacheKey>, bases: set<BaseKey>, result: PurgeResult, s': Mem)
    requires Inv(c, s) && PurgedAway(s, keys, bases, result, s')
    ensures s'.shelf.slots == s.shelf.slots - keys && s'.fills.flights == s.fills.flights - bases
    ensures result.entries == |s.shelf.slots| - |s'.shelf.slots| && result.bytes == s.shelf.bytes - s'.shelf.bytes
    ensures result.fillsCancelled == |s.fills.flights| - |s'.fills.flights|
  {
    hide S.Valid, Weight, S.Taken, CountersInv, FillsInv, Labelled, OneSchema;
    S.DropKeepsValid(s.shelf, keys, LimitsOf(c));
    Gone(s.shelf.slots, keys);
    Gone(s.fills.flights, bases);
  }

  lemma Gone<K, V>(m: map<K, V>, keys: set<K>)
    ensures |m| - |m - keys| == |keys * m.Keys|
    ensures keys <= m.Keys ==> keys * m.Keys == keys
  {
    var rest := m - keys;
    assert m.Keys == rest.Keys + keys * m.Keys && rest.Keys !! (keys * m.Keys);
    assert |m.Keys| == |rest.Keys| + |keys * m.Keys|;
    assert |m| == |m.Keys| && |rest| == |rest.Keys|;
  }

  // ---------------------------------------------------------------- insertions

  /** An insertion puts the entry in as the most recent one. What it removes are variants of the
      same request target that vary by other fields, and evicted entries, which are older than all
      that stay; whatever stays is unchanged. */
  lemma InsertIsExact(c: Config, s: Store, e: Entry, delta: Delta)
    requires Accountable(c) && EntriesInv(c, s) && SizedEntry(c, e) && IsDelta(c, s.slots, e, delta)
    ensures var m, m' := s.slots, Insert(s, e, Elements(EvictedBy(delta))).slots;
            && e.key in m' && m'[e.key].value == e && m'[e.key].weight == e.charge
            && (forall k :: k in m' && k != e.key ==>
                  && k in m && m'[k].value == m[k].value && m'[k].weight == m[k].weight
                  && m'[k].stamp < m'[e.key].stamp)
            && (forall k :: k in m && k != e.key && k !in m' ==>
                  || (k.base == e.key.base && NamesOf(k) != NamesOf(e.key))
                  || (k in EvictedBy(delta)
                      && forall j :: j in m' && j != e.key ==> m[k].stamp < m[j].stamp))
  {
    hide S.Valid, Insert, IsShortestPrefix, OldestFirst, NoRepeats, EvictedBy, DisplacedBy, ReplacedFirst, RoomFor,
         Labelled, OneSchema, NamesOf, S.PutOver, Displaced, Elements;
    var evicted := Elements(EvictedBy(delta));
    var m, after := s.slots, Insert(s, e, evicted).slots;
    var gone := Displaced(m.Keys, e.key);
    InsertKeepsEntries(c, s, e, evicted);
    PutStays(m, after, e, gone + evicted);
    forall k | k in m && k != e.key && k !in after
      ensures || (k.base == e.key.base && NamesOf(k) != NamesOf(e.key))
              || (k in EvictedBy(delta) && forall j :: j in after && j != e.key ==> m[k].stamp < m[j].stamp)
    {
      if k in evicted {
        ListedIs(EvictedBy(delta), k);
        EvictedFirst(m, gone, evicted, RoomFor(c, e), k);
      } else {
        DisplacedOnly(m.Keys, e.key, k);
      }
    }
  }

  lemma PutStays(m: Slots, after: Slots, e: Entry, gone: set<CacheKey>)
    requires S.PutOver(m, after, e.key, e, e.charge, gone)
    ensures e.key in after && after[e.key].value == e && after[e.key].weight == e.charge
    ensures forall k :: k in after && k != e.key ==>
              && k in m && after[k].value == m[k].value && after[k].weight == m[k].weight
              && after[k].stamp < after[e.key].stamp && k !in gone
    ensures forall k :: k in m && k != e.key && k !in after ==> k in gone
  {
  }

  lemma ListedIs(list: seq<CacheKey>, k: CacheKey)
    ensures k in Elements(list) <==> k in list
  {
  }

  lemma DisplacedOnly(keys: set<CacheKey>, key: CacheKey, k: CacheKey)
    requires k in Displaced(keys, key) && k != key
    ensures k.base == key.base && NamesOf(k) != NamesOf(key)
  {
    SchemaIsNames(k, key);
  }

  lemma SchemaIsNames(a: CacheKey, b: CacheKey)
    ensures SameSchema(a, b) <==> NamesOf(a) == NamesOf(b)
  {
    if NamesOf(a) == NamesOf(b) {
      assert forall i :: 0 <= i < |a.vary| ==> a.vary[i].name == NamesOf(a)[i] == NamesOf(b)[i];
    }
  }

  lemma EvictedFirst(m: Slots, gone: set<CacheKey>, evicted: set<CacheKey>, room: Room, k: CacheKey)
    requires IsShortestPrefix(m - gone, evicted, room) && k in evicted
    ensures k in m
    ensures forall j :: j in m && j !in gone && j !in evicted ==> m[k].stamp < m[j].stamp
  {
    hide Fits, NoShorterFits;
    var t := m - gone;
    forall j | j in m && j !in gone && j !in evicted
      ensures m[k].stamp < m[j].stamp
    {
      assert j in t && t[j] == m[j] && t[k] == m[k];
    }
  }

  // ---------------------------------------------------------------- beginnings

  /** Only GET targets within the key limit are filled, by one leader at a time: whoever comes while
      a fill is under way follows it, as long as there is room. */
  lemma BeginIsExact(c: Config, owner: nat, s: Mem, base: BaseKey, join: Join, s': Mem)
    requires Inv(c, s) && Step(c, owner, s, BeginEvent(base, join), s')
    ensures var f := s.fills.flights;
            var proper := base.verb == Ascii("GET") && BaseLen(base) <= c.maxKeyBytes;
            && (join == InvalidFillKey <==> !proper)
            && (join.Follower? <==> proper && base in f && f[base].followers < c.maxFollowersPerFill)
            && (join.Leader? <==> proper && base !in f && |f| < c.maxInFlight)
            && (join.Follower? ==> join.generation == f[base].generation)
            && (join.Leader? ==>
                  join.guard.owner == owner && join.guard.base == base && join.guard.generation !in s.fills.channels
                  && IsCurrent(s', join.guard))
            && s'.shelf == s.shelf
  {
    hide BaseLen;
  }

  // ---------------------------------------------------------------- counters

  /** What one event adds to the counters. Leaders, stores and cancelled fills are counted by the
      fills themselves (see `FillsConserved`). */
  function Added(event: Event): Stats {
    match event
    case LookupEvent(_, _, _, _, result) => AddedByLookup(result)
    case ErrorEvent(_, _, response) => NO_STATS.(staleIfError := if response.Some? then 1 else 0)
    case BeginEvent(_, join) => NO_STATS.(fillFollowers := if join.Follower? then 1 else 0)
    case PublishEvent(_, _, delta) => NO_STATS.(evictions := if delta.Some? then delta.value.evicted else 0)
    case RestoreEvent(_, delta) => NO_STATS.(evictions := if delta.Some? then delta.value.evicted else 0)
    case PurgeKeyEvent(_, purge) => NO_STATS.(purged := purge.entries)
    case PurgeBaseEvent(_, purge) => NO_STATS.(purged := purge.entries)
    case PurgeTagEvent(_, purge) => NO_STATS.(purged := purge.entries)
    case RejectEvent => NO_STATS.(rejected := 1)
    case _ => NO_STATS
  }

  function AddedByLookup(result: LookupResult): Stats {
    match result
    case BypassResult => NO_STATS.(bypasses := 1)
    case Miss(_, _) => NO_STATS.(misses := 1)
    case Hit(Fresh, _) => NO_STATS.(hits := 1)
    case Hit(Stale, _) => NO_STATS.(staleHits := 1)
    case Hit(StaleWhileRevalidate, _) => NO_STATS.(staleWhileRevalidate := 1)
    case Conditional(_, _, _) => NO_STATS.(revalidations := 1)
    case _ => NO_STATS
  }

  /** The counters that `Added` speaks of grow by this, up to their limit. */
  predicate Grown(stats: Stats, more: Stats, stats': Stats) {
    && stats'.hits == SatAdd(stats.hits, more.hits) && stats'.misses == SatAdd(stats.misses, more.misses)
    && stats'.bypasses == SatAdd(stats.bypasses, more.bypasses)
    && stats'.revalidations == SatAdd(stats.revalidations, more.revalidations)
    && stats'.staleWhileRevalidate == SatAdd(stats.staleWhileRevalidate, more.staleWhileRevalidate)
    && stats'.staleHits == SatAdd(stats.staleHits, more.staleHits)
    && stats'.staleIfError == SatAdd(stats.staleIfError, more.staleIfError)
    && stats'.rejected == SatAdd(stats.rejected, more.rejected)
    && stats'.evictions == SatAdd(stats.evictions, more.evictions)
    && stats'.purged == SatAdd(stats.purged, more.purged)
    && stats'.fillFollowers == SatAdd(stats.fillFollowers, more.fillFollowers)
  }

  /** No counter is past its limit. */
  predicate Limited(stats: Stats) {
    && stats.hits <= U64_MAX && stats.misses <= U64_MAX && stats.bypasses <= U64_MAX
    && stats.revalidations <= U64_MAX && stats.staleWhileRevalidate <= U64_MAX && stats.staleHits <= U64_MAX
    && stats.staleIfError <= U64_MAX && stats.rejected <= U64_MAX && stats.evictions <= U64_MAX
    && stats.purged <= U64_MAX && stats.fillFollowers <= U64_MAX
  }

  lemma StepCounts(c: Config, owner: nat, s: Mem, event: Event, s': Mem)
    requires Step(c, owner, s, event, s') && Limited(s.stats)
    ensures Grown(s.stats, Added(event), s'.stats) && Limited(s'.stats)
  {
    hide S.Drop, S.Touch, Insert, IsDelta, F.Settle, LookedUnder, KeysWithTag, KeysOfBase, BasesOf, F.Lead, F.Follow,
         Weight, S.Taken, PurgedAway, Begun, Published, Inserted, Looked, ServedOnError;
    match event
    case LookupEvent(ask, matching, now, found, result) =>
      AskCounts(s, ask, matching, now, found, result, s');
    case ErrorEvent(key, now, response) => ErrorCounts(s, key, now, response, s');
    case PublishEvent(g, e, delta) => PublishCounts(c, s, g, e, delta, s');
    case RestoreEvent(e, delta) => RestoreCounts(c, s, e, delta.value, s');
    case BeginEvent(base, join) => BeginCounts(c, owner, s, base, join, s');
    case PurgeKeyEvent(key, purge) => PurgeCounts(s, {key} * s.shelf.slots.Keys, {key.base}, purge, s');
    case PurgeBaseEvent(base, purge) => PurgeCounts(s, KeysOfBase(s.shelf.slots.Keys, base), {base}, purge, s');
    case PurgeTagEvent(tag, purge) =>
      PurgeCounts(s, KeysWithTag(s.shelf.slots, tag), BasesOf(KeysWithTag(s.shelf.slots, tag)), purge, s');
    case _ =>
  }

  lemma PublishCounts(c: Config, s: Mem, g: Guard, e: Entry, delta: Option<Delta>, s': Mem)
    requires Published(c, s, g, e, delta, s') && Limited(s.stats)
    ensures Grown(s.stats, Added(PublishEvent(g, e, delta)), s'.stats)
  {
    hide Insert, IsDelta, F.Settle;
  }

  lemma RestoreCounts(c: Config, s: Mem, e: Entry, delta: Delta, s': Mem)
    requires Inserted(c, s, e, delta, s') && Limited(s.stats)
    ensures Grown(s.stats, Added(RestoreEvent(e, Some(delta))), s'.stats)
  {
    hide Insert, IsDelta;
  }

  lemma BeginCounts(c: Config, owner: nat, s: Mem, base: BaseKey, join: Join, s': Mem)
    requires Begun(c, owner, s, base, join, s') && Limited(s.stats)
    ensures Grown(s.stats, Added(BeginEvent(base, join)), s'.stats)
  {
    hide F.Lead, F.Follow;
  }

  lemma PurgeCounts(s: Mem, keys: set<CacheKey>, bases: set<BaseKey>, purge: PurgeResult, s': Mem)
    requires PurgedAway(s, keys, bases, purge, s') && Limited(s.stats)
    ensures Grown(s.stats, NO_STATS.(purged := purge.entries), s'.stats)
  {
    hide S.Drop, F.Settle, Weight, S.Taken;
  }

  lemma AskCounts(s: Mem, ask: Ask, matching: set<CacheKey>, now: Duration, found: Option<CacheKey>,
                  result: LookupResult, s': Mem)
    requires Looked(s, ask, matching, now, found, result, s') && Limited(s.stats)
    ensures Grown(s.stats, AddedByLookup(result), s'.stats)
  {
    hide LookedUnder;
    if ask.AskFor? {
      LookupCounts(s, ask.base, ask.policy, matching, now, found, result, s');
    }
  }

  lemma ErrorCounts(s: Mem, key: CacheKey, now: Duration, response: Option<Response>, s': Mem)
    requires ServedOnError(s, key, now, response, s') && Limited(s.stats)
    ensures Grown(s.stats, Added(ErrorEvent(key, now, response)), s'.stats)
  {
    hide S.Touch, Snapshot, ServesOnError;
  }

  lemma LookupCounts(s: Mem, base: BaseKey, q: RequestPolicy, matching: set<CacheKey>, now: Duration,
                     found: Option<CacheKey>, result: LookupResult, s': Mem)
    requires LookedUnder(s, base, q, matching, now, found, result, s') && Limited(s.stats)
    ensures Grown(s.stats, AddedByLookup(result), s'.stats)
  {
    hide S.Drop, S.Touch, Judge, Snapshot;
  }

  /** The sum of one counter over events. */
  function Total(events: seq<Event>, counter: Stats -> nat): nat {
    if events == [] then 0 else Total(events[..|events| - 1], counter) + counter(Added(events[|events| - 1]))
  }

  /** In every state of every run each counter is the exact count of what it names, up to its
      limit. */
  lemma {:induction false} CountersCount(c: Config, owner: nat, run: Run, i: nat)
    requires IsRun(c, owner, run) && i <= |run.events|
    ensures var stats, events := run.states[i].stats, run.events[..i];
            && stats.hits == Min(Total(events, (s: Stats) => s.hits), U64_MAX)
            && stats.misses == Min(Total(events, (s: Stats) => s.misses), U64_MAX)
            && stats.bypasses == Min(Total(events, (s: Stats) => s.bypasses), U64_MAX)
            && stats.revalidations == Min(Total(events, (s: Stats) => s.revalidations), U64_MAX)
            && stats.staleWhileRevalidate == Min(Total(events, (s: Stats) => s.staleWhileRevalidate), U64_MAX)
            && stats.staleHits == Min(Total(events, (s: Stats) => s.staleHits), U64_MAX)
            && stats.staleIfError == Min(Total(events, (s: Stats) => s.staleIfError), U64_MAX)
            && stats.rejected == Min(Total(events, (s: Stats) => s.rejected), U64_MAX)
            && stats.evictions == Min(Total(events, (s: Stats) => s.evictions), U64_MAX)
            && stats.purged == Min(Total(events, (s: Stats) => s.purged), U64_MAX)
            && stats.fillFollowers == Min(Total(events, (s: Stats) => s.fillFollowers), U64_MAX)
  {
    hide Step, Added;
    if i > 0 {
      CountersCount(c, owner, run, i - 1);
      assert StepAt(c, owner, run, i - 1);
      StepCounts(c, owner, run.states[i - 1], run.events[i - 1], run.states[i]);
      assert run.events[..i][..i - 1] == run.events[..i - 1];
    }
  }
}
