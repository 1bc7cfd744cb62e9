/** The in-memory cache object of `cache.rs`. Each method runs as one critical section and
    is proved to take the step of the state machine with the event it names. */
module MemoryCache {
  import opened Prelude
  import opened Sets
  import opened Http
  import opened Keys
  import opened Policy
  import opened Entries
  import opened Lru
  import opened CacheModel
  import opened CacheInvariants
  import opened CacheRuns
  import opened Lookups
  import opened Replies
  import LruStore
  import FillBoard
  import S = Shelf
  import F = Fills
  import KeyOrder

  datatype ClaimError = OwnerMismatch | FillKeyMismatch

  class MemoryCache {
    const config: Config
    const identity: nat
    const store: LruStore.LruStore<CacheKey, Entry>
    const board: FillBoard.FillBoard<BaseKey>
    var stats: Stats

    ghost function State(): Mem
      reads this, store, board
    {
      Mem(store.Shelf(), board.Fills(), stats)
    }

    ghost predicate Valid()
      reads this, store, board
    {
      Accountable(config) && Inv(config, State())
    }

    constructor (config: Config, identity: nat)
      requires Accountable(config)
      ensures Valid() && State() == EMPTY
      ensures this.config == config && this.identity == identity
      ensures fresh(store) && fresh(board)
    {
      this.config := config;
      this.identity := identity;
      store := new LruStore.LruStore();
      board := new FillBoard.FillBoard();
      stats := NO_STATS;
      new;
      InitInv(config);
    }

    // -------------------------------------------------------------- insertion

    /** `insert_entry`. */
    method InsertEntry(e: Entry) returns (delta: Delta)
      requires Accountable(config) && EntriesInv(config, store.Shelf()) && SizedEntry(config, e)
      modifies this`stats, store
      ensures Inserted(config, old(State()), e, delta, State())
    {
      hide S.Drop, S.Put, S.Tick, Displaced, IsShortestPrefix, IsDelta, OldestFirst, Labelled, OneSchema;
      ghost var h := store.Shelf();
      ghost var limits := LimitsOf(config);
      var displaced := RemoveDisplaced(e.key);
      ghost var gone := Displaced(h.slots.Keys, e.key);
      S.DropKeepsValid(h, gone, limits);
      var evicted := store.EvictFor(e.charge, config.maxEntries, config.maxTotalBytes);
      S.DropTwice(h, gone, Elements(evicted));
      S.DropKeepsValid(h, gone + Elements(evicted), limits);
      store.Put(e.key, e, e.charge);
      stats := WithEvictions(stats, |evicted|);
      delta := Delta(e.key, displaced + evicted, |evicted|);
      S.DropSlots(h, gone);
      AssembleDelta(config, h.slots, e, displaced, evicted);
    }

    /** The head of `insert_entry`: the replaced key, then the conflicting ones. */
    method RemoveDisplaced(key: CacheKey) returns (displaced: seq<CacheKey>)
      requires S.Valid(store.Shelf(), LimitsOf(config))
      modifies store
      ensures store.Shelf() == S.Drop(old(store.Shelf()), Displaced(old(store.slots).Keys, key))
      ensures NoRepeats(displaced) && Elements(displaced) == Displaced(old(store.slots).Keys, key)
      ensures ReplacedFirst(key in old(store.slots), key, displaced)
    {
      ghost var h := store.Shelf();
      var replaced := store.Remove(key);
      S.DropWeight(h.slots, {key});
      var conflicting := Conflicting(store.slots.Keys, key);
      ConflictingApart(h.slots.Keys, store.slots.Keys, key);
      var more := KeyOrder.Sort(conflicting);
      store.RemoveListed(more);
      S.DropTwice(h, {key}, conflicting);
      SameDrop(h, {key} + conflicting, Displaced(h.slots.Keys, key));
      displaced := (if replaced.Some? then [key] else []) + more;
      DisplacedListed(key, Displaced(h.slots.Keys, key), replaced.Some?, more);
      assert displaced[if replaced.Some? then 1 else 0..] == more;
    }

    // -------------------------------------------------------------- lookups

    /** `matching_key`. */
    method MatchingKey(base: BaseKey, headers: Headers) returns (found: Option<CacheKey>)
      ensures forall policy :: Found(store.slots, Matching(config, store.slots, AskFor(base, policy), headers), found)
    {
      found := None;
      var rest := store.slots.Keys;
      while rest != {}
        invariant rest <= store.slots.Keys
        invariant found.Some? ==> found.value in store.slots.Keys - rest
                                  && Candidate(config, store.slots, base, headers, found.value)
        invariant forall k :: k in store.slots.Keys - rest && Candidate(config, store.slots, base, headers, k) ==>
                    found.Some? && store.slots[k].stamp <= store.slots[found.value].stamp
        decreases |rest|
      {
        var k :| k in rest;
        if Candidate(config, store.slots, base, headers, k)
           && (found.None? || store.slots[found.value].stamp <= store.slots[k].stamp) {
          found := Some(k);
        }
        rest := rest - {k};
      }
    }

    /** `Cache::lookup`. */
    method Lookup(request: Request, now: Duration) returns (found: Option<CacheKey>, result: LookupResult)
      requires Valid()
      modifies this`stats, store
      ensures Valid()
      ensures LookupTaken(config, identity, old(State()), request, now, found, result, State())
      ensures Replied(config, old(store.slots), request, now, result)
    {
      ghost var s := State();
      var ask := Evaluate(config, request);
      ghost var matching := Matching(config, store.slots, ask, request.input.headers);
      found := None;
      match ask {
        case SkipCache =>
          stats := stats.(bypasses := SatAdd(stats.bypasses, 1));
          result := BypassResult;
        case BadRequest =>
          result := InvalidRequest;
        case BadKey(error) =>
          result := InvalidKey(error);
        case AskFor(base, policy) =>
          found := MatchingKey(base, request.input.headers);
          result := AnswerFrom(base, policy, matching, found, now);
      }
      LookupKeepsInv(config, s, ask, matching, now, found, result, State());
      LookupReplies(config, identity, s, request, now, found, result, State());
    }

    /** The rest of `Cache::lookup` once a key was found or not. */
    method AnswerFrom(base: BaseKey, policy: RequestPolicy, ghost matching: set<CacheKey>, found: Option<CacheKey>,
                      now: Duration) returns (result: LookupResult)
      requires Distinct(store.slots) && Found(store.slots, matching, found)
      requires forall k :: k in matching ==> k.base == base
      modifies this`stats, store
      ensures LookedUnder(old(State()), base, policy, matching, now, found, result, State())
      ensures found.Some? && !result.Miss? ==>
                var e := old(store.slots)[found.value].value;
                && (result.Hit? || result.Conditional?) && Repeats(result.response, e, AgeAt(e, now))
                && (result.Hit? && policy.mode != Bypass ==> MayServe(policy, e.policy, result.verdict, AgeAt(e, now)))
    {
      if found.None? {
        stats := stats.(misses := SatAdd(stats.misses, 1));
        return Miss(policy.onlyIfCached, base);
      }
      var e := store.slots[found.value].value;
      var age := AgeAt(e, now);
      if IsExpired(e.policy, age) {
        var _ := store.Remove(found.value);
        stats := stats.(misses := SatAdd(stats.misses, 1));
        return Miss(policy.onlyIfCached, base);
      }
      store.Touch(found.value);
      var verdict := Judge(policy, e.policy, age);
      stats := Counted(stats, verdict);
      result := Answer(verdict, e, age);
      SnapshotRepeats(e, age);
      if policy.mode != Bypass {
        JudgeIsSafe(policy, e.policy, age);
        WindowsAreExact(e.policy, age);
      }
    }

    /** `Cache::stale_if_error`. */
    method StaleIfError(key: CacheKey, now: Duration) returns (response: Option<Response>)
      requires Valid()
      modifies this`stats, store
      ensures Valid()
      ensures Step(config, identity, old(State()), ErrorEvent(key, now, response), State())
      ensures ErrorReplied(old(store.slots), key, now, response)
    {
      ghost var s := State();
      response := None;
      if key in store.slots {
        var e := store.slots[key].value;
        if ServesOnError(e.policy, AgeAt(e, now)) {
          response := Some(Snapshot(e, AgeAt(e, now)));
          store.Touch(key);
          stats := stats.(staleIfError := SatAdd(stats.staleIfError, 1));
        }
      }
      ErrorKeepsInv(config, s, key, now, response, State());
      ErrorReplies(config, identity, s, key, now, response, State());
    }

    // -------------------------------------------------------------- fills

    /** `Cache::begin_fill`. */
    method BeginFill(base: BaseKey) returns (join: Join)
      requires Valid()
      modifies this`stats, board
      ensures Valid()
      ensures Step(config, identity, old(State()), BeginEvent(base, join), State())
    {
      ghost var s := State();
      if !ValidFillKey(config, base) {
        join := InvalidFillKey;
      } else if base in board.flights {
        if board.flights[base].followers >= config.maxFollowersPerFill {
          join := AtCapacity;
        } else {
          join := Follower(board.flights[base].generation);
          board.Follow(base);
          stats := stats.(fillFollowers := SatAdd(stats.fillFollowers, 1));
        }
      } else if |board.flights| >= config.maxInFlight {
        join := AtCapacity;
      } else {
        var generation := board.Lead(base);
        stats := stats.(fillLeaders := SatAdd(stats.fillLeaders, 1));
        join := Leader(Guard(identity, base, generation));
      }
      BeginKeepsInv(config, identity, s, base, join, State());
    }

    /** `FillGuard::is_current`. */
    method CheckCurrent(g: Guard) returns (current: bool)
      ensures current <==> IsCurrent(State(), g)
    {
      current := g.base in board.flights && board.flights[g.base].generation == g.generation;
    }

    /** `FillGuard::store_claimed`. */
    method StoreClaimed(g: Guard, e: Entry) returns (delta: Option<Delta>)
      requires Valid() && SizedEntry(config, e) && e.key.base == g.base
      modifies this`stats, store, board
      ensures Valid()
      ensures Step(config, identity, old(State()), PublishEvent(g, e, delta), State())
    {
      hide S.Valid, S.Drop, Insert, IsDelta, F.Settle, Labelled, OneSchema, CountersInv;
      ghost var s := State();
      var current := CheckCurrent(g);
      if !current {
        return None;
      }
      var _ := board.SettleOne(g.base, F.Kept);
      var inserted := InsertEntry(e);
      stats := stats.(stores := SatAdd(stats.stores, 1));
      delta := Some(inserted);
      PublishKeepsInv(config, s, g, e, delta, State());
    }

    /** `FillGuard::store`: `claim`, then `store_claimed`. A refused claim drops the guard,
        which cancels its fill. */
    method Store(g: Guard, e: Entry) returns (r: Result<Option<Delta>, ClaimError>)
      requires Valid() && (e.owner == g.owner ==> SizedEntry(config, e))
      modifies this`stats, store, board
      ensures Valid()
      ensures r == Err(OwnerMismatch) <==> e.owner != g.owner
      ensures r == Err(FillKeyMismatch) <==> e.owner == g.owner && e.key.base != g.base
      ensures r.Err? ==> Step(config, identity, old(State()), AbandonEvent(g), State())
      ensures r.Ok? ==> Step(config, identity, old(State()), PublishEvent(g, e, r.value), State())
    {
      hide Inv, Accountable, Step, SizedEntry;
      if e.owner != g.owner || e.key.base != g.base {
        Abandon(g);
        return Err(if e.owner != g.owner then OwnerMismatch else FillKeyMismatch);
      }
      var delta := StoreClaimed(g, e);
      r := Ok(delta);
    }

    /** `FillGuard::complete_without_store`. */
    method CompleteWithoutStore(g: Guard) returns (done: bool)
      requires Valid()
      modifies board
      ensures Valid()
      ensures Step(config, identity, old(State()), CompleteEvent(g, done), State())
    {
      ghost var s := State();
      done := CheckCurrent(g);
      if done {
        var _ := board.SettleOne(g.base, F.NotStored);
      }
      CompleteKeepsInv(config, s, g, done, State());
    }

    /** `Drop for FillGuard`. */
    method Abandon(g: Guard)
      requires Valid()
      modifies this`stats, board
      ensures Valid()
      ensures Step(config, identity, old(State()), AbandonEvent(g), State())
    {
      ghost var s := State();
      var current := CheckCurrent(g);
      if current {
        OneCurrent(s, g);
        var _ := board.SettleOne(g.base, F.Cancelled);
        stats := WithCancelled(stats, 1);
      }
      AbandonKeepsInv(config, s, g);
    }

    /** `Cache::cancel_all_fills`. */
    method CancelAllFills()
      requires Valid()
      modifies this`stats, board
      ensures Valid()
      ensures Step(config, identity, old(State()), CancelAllEvent, State())
    {
      ghost var s := State();
      var count := board.SettleAll(board.flights.Keys, F.Cancelled);
      stats := WithCancelled(stats, count);
      CancelKeepsInv(config, s, s.fills.flights.Keys, F.Cancelled);
    }

    // -------------------------------------------------------------- purges

    /** Common body of the purges. */
    method Purge(keys: set<CacheKey>, bases: set<BaseKey>) returns (result: PurgeResult)
      requires Valid() && keys <= store.slots.Keys
      modifies this`stats, store, board
      ensures Valid()
      ensures PurgedAway(old(State()), keys, bases, result, State())
    {
      ghost var s := State();
      var removed, bytes := store.RemoveAll(keys);
      DistinctCount(removed);
      var cancelled := board.SettleAll(bases, F.Purged);
      stats := WithCancelled(stats, cancelled);
      stats := stats.(purged := SatAdd(stats.purged, |removed|));
      result := PurgeResult(|removed|, bytes, cancelled);
      PurgeKeepsInv(config, s, keys, bases, result, State());
    }

    /** `Cache::purge_exact`. */
    method PurgeExact(key: CacheKey) returns (result: PurgeResult)
      requires Valid()
      modifies this`stats, store, board
      ensures Valid()
      ensures Step(config, identity, old(State()), PurgeKeyEvent(key, result), State())
    {
      result := Purge({key} * store.slots.Keys, {key.base});
    }

    /** `Cache::purge_base`. */
    method PurgeBase(base: BaseKey) returns (result: PurgeResult)
      requires Valid()
      modifies this`stats, store, board
      ensures Valid()
      ensures Step(config, identity, old(State()), PurgeBaseEvent(base, result), State())
    {
      result := Purge(KeysOfBase(store.slots.Keys, base), {base});
    }

    /** `Cache::purge_tag`; `None` is an invalid tag. */
    method PurgeTag(tag: Bytes) returns (result: Option<PurgeResult>)
      requires Valid()
      modifies this`stats, store, board
      ensures Valid()
      ensures result.None? <==> !ValidTag(tag, config.maxTagBytes)
      ensures result.None? ==> State() == old(State())
      ensures result.Some? ==> Step(config, identity, old(State()), PurgeTagEvent(tag, result.value), State())
    {
      if !ValidTag(tag, config.maxTagBytes) {
        return None;
      }
      var keys := KeysWithTag(store.slots, tag);
      var purge := Purge(keys, BasesOf(keys));
      result := Some(purge);
    }

    // -------------------------------------------------------------- for the disk store

    /** `Cache::remove_without_cancelling_fill`. */
    method RemoveWithoutCancellingFill(key: CacheKey) returns (removed: bool)
      requires Valid()
      modifies store
      ensures Valid()
      ensures Step(config, identity, old(State()), RemoveEvent(key, removed), State())
    {
      DropKeepsEntries(config, store.Shelf(), {key});
      var taken := store.Remove(key);
      removed := taken.Some?;
    }

    /** `Cache::restore`. */
    method Restore(e: Entry) returns (delta: Delta)
      requires Valid() && SizedEntry(config, e)
      modifies this`stats, store
      ensures Valid()
      ensures Step(config, identity, old(State()), RestoreEvent(e, Some(delta)), State())
    {
      ghost var s := State();
      delta := InsertEntry(e);
      RestoreKeepsInv(config, s, e, delta, State());
    }
  }

  // ---------------------------------------------------------------- lemmas for InsertEntry

  lemma SameDrop<K, V>(h: S.Shelf<K, V>, keys: set<K>, all: set<K>)
    requires h.slots.Keys * keys == h.slots.Keys * all
    ensures S.Drop(h, keys) == S.Drop(h, all)
  {
    assert forall k :: k in h.slots ==> (k in keys <==> k in h.slots.Keys * keys);
    assert forall k :: k in h.slots ==> (k in all <==> k in h.slots.Keys * all);
    assert h.slots - keys == h.slots - all;
    assert S.Taken(h.slots, keys) == S.Taken(h.slots, all);
  }

  lemma ConflictingApart(before: set<CacheKey>, after: set<CacheKey>, key: CacheKey)
    requires after == before - {key}
    ensures Conflicting(after, key) == Conflicting(before, key) == Displaced(before, key) - {key}
    ensures before * ({key} + Conflicting(after, key)) == before * Displaced(before, key)
    ensures key in Displaced(before, key) <==> key in before
  {
    assert SameSchema(key, key);
  }

  lemma DisplacedListed(key: CacheKey, all: set<CacheKey>, replaced: bool, more: seq<CacheKey>)
    requires NoRepeats(more) && Elements(more) == all - {key} && (replaced <==> key in all)
    ensures var list := (if replaced then [key] else []) + more;
            NoRepeats(list) && Elements(list) == all
  {
    var first := if replaced then [key] else [];
    ElementsOfAppend(first, more);
    assert Elements([key]) == {key};
    assert forall i :: 0 <= i < |more| ==> more[i] in Elements(more);
  }

  lemma ElementsApart<K, V>(list: seq<K>, slots: map<K, V>, gone: set<K>)
    requires Elements(list) == gone
    ensures Elements(list) !! (slots - gone).Keys
  {
  }

  lemma AssembleDelta(c: Config, slots: Slots, e: Entry, displaced: seq<CacheKey>, evicted: seq<CacheKey>)
    requires NoRepeats(displaced) && Elements(displaced) == Displaced(slots.Keys, e.key)
    requires ReplacedFirst(e.key in slots, e.key, displaced)
    requires var rest := slots - Displaced(slots.Keys, e.key);
             IsShortestPrefix(rest, Elements(evicted), RoomFor(c, e)) && OldestFirst(rest, evicted)
    ensures var delta := Delta(e.key, displaced + evicted, |evicted|);
            IsDelta(c, slots, e, delta) && EvictedBy(delta) == evicted
  {
    hide Displaced, IsShortestPrefix, NoRepeats, RoomFor, Elements, ReplacedFirst;
    var delta := Delta(e.key, displaced + evicted, |evicted|);
    assert EvictedBy(delta) == evicted && DisplacedBy(delta) == displaced;
    ElementsApart(displaced, slots, Displaced(slots.Keys, e.key));
    OldestFirstNoRepeats(slots - Displaced(slots.Keys, e.key), evicted);
    DisjointLists(displaced, evicted, slots - Displaced(slots.Keys, e.key));
  }

  lemma DisjointLists<K, V>(p: seq<K>, q: seq<K>, rest: map<K, V>)
    requires NoRepeats(p) && NoRepeats(q) && Elements(p) !! rest.Keys
    requires forall i :: 0 <= i < |q| ==> q[i] in rest
    ensures NoRepeats(p + q)
  {
    assert forall i :: 0 <= i < |p| ==> p[i] in Elements(p);
  }
}
