/** The memory cache (`cache.rs`) as a state machine. Every public operation runs under one
    mutex, so it is one atomic step; the steps are stated here as relations and the class in
    MemoryCache.dfy is proved to take them. */
module CacheModel {
  import opened Prelude
  import opened Http
  import opened Keys
  import opened Policy
  import opened Entries
  import opened Lru
  import opened Sets
  import opened KeyOrder
  import S = Shelf
  import F = Fills
  import Identity

  // ---------------------------------------------------------------- state

  datatype Stats = Stats(
    hits: nat, misses: nat, bypasses: nat, revalidations: nat, staleWhileRevalidate: nat, staleHits: nat,
    staleIfError: nat, stores: nat, rejected: nat, evictions: nat, purged: nat,
    fillLeaders: nat, fillFollowers: nat, fillCancelled: nat)

  type Slots = map<CacheKey, Slot<Entry>>

  type Store = S.Shelf<CacheKey, Entry>

  /** `State`: the shelf holds `entries`, `bytes_used` and `sequence`. */
  datatype Mem = Mem(shelf: Store, fills: F.Fills<BaseKey>, stats: Stats)

  const NO_STATS: Stats := Stats(0, 0, 0, 0, 0, 0, 0, 0, 0, 0, 0, 0, 0, 0)

  const EMPTY: Mem := Mem(S.Shelf(map[], 0, 0), F.Fills(map[], map[]), NO_STATS)

  /** A fill guard: the permit of the leader of one generation. */
  datatype Guard = Guard(owner: nat, base: BaseKey, generation: nat)

  ghost predicate IsCurrent(s: Mem, g: Guard) {
    F.IsCurrent(s.fills, g.base, g.generation)
  }

  // ---------------------------------------------------------------- invariant

  function LimitsOf(c: Config): S.Limits {
    S.Limits(c.maxEntries, c.maxTotalBytes)
  }

  /** Entries sit under their own key and weigh their charge. */
  ghost predicate Labelled(slots: Slots) {
    forall k :: k in slots ==> LabelledAt(slots[k], k)
  }

  predicate LabelledAt(slot: Slot<Entry>, k: CacheKey) {
    slot.value.key == k && slot.weight == slot.value.charge
  }

  /** All resident keys of one base list the same `Vary` fields. */
  ghost predicate OneSchema(keys: set<CacheKey>) {
    forall a, b :: a in keys && b in keys && a.base == b.base ==> SameSchema(a, b)
  }

  ghost predicate EntriesInv(c: Config, s: Store) {
    S.Valid(s, LimitsOf(c)) && Labelled(s.slots) && OneSchema(s.slots.Keys)
  }

  ghost predicate FillsInv(c: Config, f: F.Fills<BaseKey>) {
    F.Inv(f, c.maxInFlight, c.maxFollowersPerFill)
  }

  function Saturated(n: nat): nat {
    Min(n, U64_MAX)
  }

  ghost predicate CountersInv(stats: Stats, f: F.Fills<BaseKey>) {
    && stats.fillLeaders == Saturated(|f.channels|)
    && stats.stores == Saturated(|F.Ended(f, F.Kept)|)
    && stats.fillCancelled == Saturated(|F.Ended(f, F.Cancelled)| + |F.Ended(f, F.Purged)|)
  }

  ghost predicate Inv(c: Config, s: Mem) {
    EntriesInv(c, s.shelf) && FillsInv(c, s.fills) && CountersInv(s.stats, s.fills)
  }

  // ---------------------------------------------------------------- insertion

  /** The two facts about a prepared entry that the accounting rests on. */
  predicate SizedEntry(c: Config, e: Entry) {
    ENTRY_OVERHEAD <= e.charge <= c.maxTotalBytes
  }

  datatype Delta = Delta(inserted: CacheKey, removed: seq<CacheKey>, evicted: nat)

  /** Keys of the same base with another `Vary` schema. */
  function Conflicting(keys: set<CacheKey>, key: CacheKey): set<CacheKey> {
    set k | k in keys && k.base == key.base && !SameSchema(k, key)
  }

  /** What a new entry for `key` displaces: the entry it replaces and the conflicting ones. */
  function Displaced(keys: set<CacheKey>, key: CacheKey): set<CacheKey> {
    ({key} * keys) + Conflicting(keys, key)
  }

  ghost function Insert(s: Store, e: Entry, evicted: set<CacheKey>): Store {
    S.Put(S.Drop(s, Displaced(s.slots.Keys, e.key) + evicted), e.key, e, e.charge)
  }

  /** The evicted keys are reported last. */
  function EvictedBy(delta: Delta): seq<CacheKey> {
    if delta.evicted <= |delta.removed| then delta.removed[|delta.removed| - delta.evicted..] else []
  }

  function DisplacedBy(delta: Delta): seq<CacheKey> {
    if delta.evicted <= |delta.removed| then delta.removed[..|delta.removed| - delta.evicted] else delta.removed
  }

  function RoomFor(c: Config, e: Entry): Room {
    Room(e.charge, c.maxEntries, c.maxTotalBytes)
  }

  /** The replaced key, if any, and then the conflicting ones in ascending order. */
  ghost predicate ReplacedFirst(replaced: bool, key: CacheKey, displaced: seq<CacheKey>) {
    var n := if replaced then 1 else 0;
    n <= |displaced| && (replaced ==> displaced[0] == key) && Ascending(displaced[n..])
  }

  /** What `insert_entry` reports: the replaced key first, then the conflicting ones, then
      the shortest least-recently-used prefix of the rest that makes room, oldest first. */
  ghost predicate IsDelta(c: Config, slots: Slots, e: Entry, delta: Delta) {
    && delta.inserted == e.key
    && delta.evicted <= |delta.removed|
    && NoRepeats(delta.removed)
    && Elements(DisplacedBy(delta)) == Displaced(slots.Keys, e.key)
    && ReplacedFirst(e.key in slots, e.key, DisplacedBy(delta))
    && IsShortestPrefix(slots - Displaced(slots.Keys, e.key), Elements(EvictedBy(delta)), RoomFor(c, e))
    && OldestFirst(slots, EvictedBy(delta))
  }

  function WithEvictions(stats: Stats, n: nat): Stats {
    stats.(evictions := SatAdd(stats.evictions, n))
  }

  /** `insert_entry`. */
  ghost predicate Inserted(c: Config, s: Mem, e: Entry, delta: Delta, s': Mem) {
    && IsDelta(c, s.shelf.slots, e, delta)
    && s' == s.(shelf := Insert(s.shelf, e, Elements(EvictedBy(delta))), stats := WithEvictions(s.stats, delta.evicted))
  }

  // ---------------------------------------------------------------- fills

  function WithCancelled(stats: Stats, n: nat): Stats {
    stats.(fillCancelled := SatAdd(stats.fillCancelled, n))
  }

  /** `cancel_flight` for every base in the set, and `cancel_all_fills`. */
  ghost function Cancel(s: Mem, bases: set<BaseKey>, outcome: F.FillOutcome): Mem {
    s.(fills := F.Settle(s.fills, bases, outcome), stats := WithCancelled(s.stats, |bases * s.fills.flights.Keys|))
  }

  datatype Join = Leader(guard: Guard) | Follower(generation: nat) | AtCapacity | InvalidFillKey

  predicate ValidFillKey(c: Config, base: BaseKey) {
    base.verb == GET && BaseLen(base) <= c.maxKeyBytes
  }

  /** `begin_fill`. */
  ghost predicate Begun(c: Config, owner: nat, s: Mem, base: BaseKey, join: Join, s': Mem) {
    var flights := s.fills.flights;
    if !ValidFillKey(c, base) then join == InvalidFillKey && s' == s
    else if base in flights then
      if flights[base].followers >= c.maxFollowersPerFill then join == AtCapacity && s' == s
      else
        && join == Follower(flights[base].generation)
        && s' == s.(fills := F.Follow(s.fills, base),
                    stats := s.stats.(fillFollowers := SatAdd(s.stats.fillFollowers, 1)))
    else if |flights| >= c.maxInFlight then join == AtCapacity && s' == s
    else
      && join == Leader(Guard(owner, base, |s.fills.channels|))
      && s' == s.(fills := F.Lead(s.fills, base), stats := s.stats.(fillLeaders := SatAdd(s.stats.fillLeaders, 1)))
  }

  /** `FillGuard::store_claimed`; `None` is the lost generation. */
  ghost predicate Published(c: Config, s: Mem, g: Guard, e: Entry, delta: Option<Delta>, s': Mem) {
    if !IsCurrent(s, g) then delta == None && s' == s
    else
      && delta.Some?
      && IsDelta(c, s.shelf.slots, e, delta.value)
      && var stats := WithEvictions(s.stats, delta.value.evicted);
         s' == Mem(Insert(s.shelf, e, Elements(EvictedBy(delta.value))), F.Settle(s.fills, {g.base}, F.Kept),
                   stats.(stores := SatAdd(stats.stores, 1)))
  }

  /** `FillGuard::complete_without_store`. */
  ghost predicate Completed(s: Mem, g: Guard, done: bool, s': Mem) {
    && (done <==> IsCurrent(s, g))
    && s' == if done then s.(fills := F.Settle(s.fills, {g.base}, F.NotStored)) else s
  }

  /** Dropping an active guard. */
  ghost function Abandoned(s: Mem, g: Guard): Mem {
    if IsCurrent(s, g) then Cancel(s, {g.base}, F.Cancelled) else s
  }

  // ---------------------------------------------------------------- purges

  datatype PurgeResult = PurgeResult(entries: nat, bytes: nat, fillsCancelled: nat)

  /** The common shape of the three purges: some resident keys go, and the fills of some
      bases are cancelled. */
  ghost predicate PurgedAway(s: Mem, keys: set<CacheKey>, bases: set<BaseKey>, result: PurgeResult, s': Mem) {
    var t := Cancel(s, bases, F.Purged);
    && keys <= s.shelf.slots.Keys
    && s' == Mem(S.Drop(s.shelf, keys), t.fills, t.stats.(purged := SatAdd(t.stats.purged, |keys|)))
    && result == PurgeResult(|keys|, Weight(S.Taken(s.shelf.slots, keys)), |bases * s.fills.flights.Keys|)
  }

  function KeysOfBase(keys: set<CacheKey>, base: BaseKey): set<CacheKey> {
    set k | k in keys && k.base == base
  }

  function KeysWithTag(slots: Slots, tag: Bytes): set<CacheKey> {
    set k | k in slots && tag in slots[k].value.tags
  }

  function BasesOf(keys: set<CacheKey>): set<BaseKey> {
    set k | k in keys :: k.base
  }

  // ---------------------------------------------------------------- lookups

  /** What a request asks of the cache once its directives and key have been evaluated. */
  datatype Ask = SkipCache | BadRequest | BadKey(error: KeyError) | AskFor(base: BaseKey, policy: RequestPolicy)

  datatype Response = Response(key: CacheKey, status: nat, headers: Headers, body: Bytes, age: Duration)

  datatype LookupResult =
    | BypassResult
    | Miss(onlyIfCached: bool, base: BaseKey)
    | Hit(verdict: Verdict, response: Response)
    | Conditional(response: Response, validators: Validators, staleIfError: bool)
    | InvalidRequest
    | InvalidKey(error: KeyError)

  const AGE_NAME: Bytes := Ascii("age")

  function WithoutName(headers: Headers, name: Bytes): Headers {
    if headers == [] then []
    else if headers[0].name == name then WithoutName(headers[1..], name)
    else [headers[0]] + WithoutName(headers[1..], name)
  }

  /** `response_snapshot`. */
  function Snapshot(e: Entry, age: Duration): Response {
    Response(e.key, e.status, WithoutName(e.headers, AGE_NAME) + [Header(AGE_NAME, Identity.Decimal(age / NANOS))],
             e.body, age)
  }

  /** The only `Age` field tells the age in whole seconds. */
  ghost predicate TellsAge(headers: Headers, age: Duration) {
    exists line :: ValuesOf(headers, Ascii("age")) == [line] && TellsSeconds(line, age)
  }

  predicate TellsSeconds(line: Bytes, age: Duration) {
    line != [] && Identity.AllDigits(line) && Identity.DecimalValue(line) == age / 1_000_000_000
  }

  /** The response has this status, this body and these fields, save that its `Age` field tells
      the age. */
  ghost predicate Carries(response: Response, status: nat, headers: Headers, body: Bytes, age: Duration) {
    && response.status == status && response.body == body && response.age == age
    && TellsAge(response.headers, age)
    && forall name :: name != Ascii("age") ==> ValuesOf(response.headers, name) == ValuesOf(headers, name)
  }

  /** The response is the stored one. */
  ghost predicate Repeats(response: Response, e: Entry, age: Duration) {
    response.key == e.key && Carries(response, e.status, e.headers, e.body, age)
  }

  lemma SnapshotRepeats(e: Entry, age: Duration)
    ensures Repeats(Snapshot(e, age), e, age)
  {
    hide ValuesOf, WithoutName, Ascii, Identity.Decimal, Identity.DecimalValue;
    var rest, line := WithoutName(e.headers, Ascii("age")), Identity.Decimal(age / NANOS);
    Identity.DecimalRoundTrip(age / NANOS);
    forall name
      ensures ValuesOf(rest + [Header(Ascii("age"), line)], name)
           == if name == Ascii("age") then [line] else ValuesOf(e.headers, name)
    {
      ValuesOfAppend(rest, [Header(Ascii("age"), line)], name);
      ValuesWithout(e.headers, Ascii("age"), name);
    }
    assert TellsSeconds(line, age);
  }

  lemma {:induction false} ValuesWithout(headers: Headers, gone: Bytes, name: Bytes)
    ensures ValuesOf(WithoutName(headers, gone), name) == if name == gone then [] else ValuesOf(headers, name)
  {
    if headers != [] {
      ValuesWithout(headers[1..], gone, name);
      if headers[0].name != gone {
        ValuesOfAppend([headers[0]], WithoutName(headers[1..], gone), name);
      }
    }
  }

  /** `matching_key`: the most recently used of the matching resident keys. */
  ghost predicate Found(slots: Slots, matching: set<CacheKey>, found: Option<CacheKey>) {
    && matching <= slots.Keys
    && match found
       case None => matching == {}
       case Some(k) => k in matching && forall j :: j in matching ==> slots[j].stamp <= slots[k].stamp
  }

  function Counted(stats: Stats, v: Verdict): Stats {
    match v
    case Fresh => stats.(hits := SatAdd(stats.hits, 1))
    case Stale => stats.(staleHits := SatAdd(stats.staleHits, 1))
    case StaleWhileRevalidate => stats.(staleWhileRevalidate := SatAdd(stats.staleWhileRevalidate, 1))
    case MustRevalidate(_) => stats.(revalidations := SatAdd(stats.revalidations, 1))
  }

  function Answer(v: Verdict, e: Entry, age: Duration): LookupResult {
    match v
    case MustRevalidate(onError) => Conditional(Snapshot(e, age), e.validators, onError)
    case _ => Hit(v, Snapshot(e, age))
  }

  ghost function Missed(s: Mem): Mem {
    s.(stats := s.stats.(misses := SatAdd(s.stats.misses, 1)))
  }

  /** The part of `lookup` under the lock; `matching` are the resident keys that match. */
  ghost predicate LookedUnder(s: Mem, base: BaseKey, q: RequestPolicy, matching: set<CacheKey>, now: Duration,
                              found: Option<CacheKey>, result: LookupResult, s': Mem) {
    && Found(s.shelf.slots, matching, found)
    && (forall k :: k in matching ==> k.base == base)
    && match found
       case None => result == Miss(q.onlyIfCached, base) && s' == Missed(s)
       case Some(k) =>
         var e := s.shelf.slots[k].value;
         var age := AgeAt(e, now);
         if IsExpired(e.policy, age) then
           result == Miss(q.onlyIfCached, base) && s' == Missed(s.(shelf := S.Drop(s.shelf, {k})))
         else
           var v := Judge(q, e.policy, age);
           && result == Answer(v, e, age)
           && s' == s.(shelf := S.Touch(s.shelf, k), stats := Counted(s.stats, v))
  }

  /** `Cache::lookup`. */
  ghost predicate Looked(s: Mem, ask: Ask, matching: set<CacheKey>, now: Duration, found: Option<CacheKey>,
                         result: LookupResult, s': Mem) {
    match ask
    case SkipCache => result == BypassResult && s' == s.(stats := s.stats.(bypasses := SatAdd(s.stats.bypasses, 1)))
    case BadRequest => result == InvalidRequest && s' == s
    case BadKey(error) => result == InvalidKey(error) && s' == s
    case AskFor(base, q) => q.mode != Bypass && LookedUnder(s, base, q, matching, now, found, result, s')
  }

  /** `Cache::stale_if_error`. */
  ghost predicate ServedOnError(s: Mem, key: CacheKey, now: Duration, response: Option<Response>, s': Mem) {
    var slots := s.shelf.slots;
    if key in slots && ServesOnError(slots[key].value.policy, AgeAt(slots[key].value, now)) then
      && response == Some(Snapshot(slots[key].value, AgeAt(slots[key].value, now)))
      && s' == s.(shelf := S.Touch(s.shelf, key), stats := s.stats.(staleIfError := SatAdd(s.stats.staleIfError, 1)))
    else response == None && s' == s
  }

  // ---------------------------------------------------------------- steps

  datatype Event =
    | LookupEvent(ask: Ask, matching: set<CacheKey>, now: Duration, found: Option<CacheKey>, result: LookupResult)
    | ErrorEvent(key: CacheKey, now: Duration, response: Option<Response>)
    | BeginEvent(base: BaseKey, join: Join)
    | PublishEvent(guard: Guard, entry: Entry, delta: Option<Delta>)
    | CompleteEvent(guard: Guard, done: bool)
    | AbandonEvent(guard: Guard)
    | PurgeKeyEvent(key: CacheKey, purge: PurgeResult)
    | PurgeBaseEvent(base: BaseKey, purge: PurgeResult)
    | PurgeTagEvent(tag: Bytes, purge: PurgeResult)
    | CancelAllEvent
    | RemoveEvent(key: CacheKey, removed: bool)
    | RestoreEvent(entry: Entry, delta: Option<Delta>)
    | RejectEvent

  ghost predicate Step(c: Config, owner: nat, s: Mem, event: Event, s': Mem) {
    match event
    case LookupEvent(ask, matching, now, found, result) => Looked(s, ask, matching, now, found, result, s')
    case ErrorEvent(key, now, response) => ServedOnError(s, key, now, response, s')
    case BeginEvent(base, join) => Begun(c, owner, s, base, join, s')
    case PublishEvent(g, e, delta) => SizedEntry(c, e) && e.key.base == g.base && Published(c, s, g, e, delta, s')
    case CompleteEvent(g, done) => Completed(s, g, done, s')
    case AbandonEvent(g) => s' == Abandoned(s, g)
    case PurgeKeyEvent(key, result) => PurgedAway(s, {key} * s.shelf.slots.Keys, {key.base}, result, s')
    case PurgeBaseEvent(base, result) => PurgedAway(s, KeysOfBase(s.shelf.slots.Keys, base), {base}, result, s')
    case PurgeTagEvent(tag, result) =>
      PurgedAway(s, KeysWithTag(s.shelf.slots, tag), BasesOf(KeysWithTag(s.shelf.slots, tag)), result, s')
    case CancelAllEvent => s' == Cancel(s, s.fills.flights.Keys, F.Cancelled)
    case RemoveEvent(key, removed) => (removed <==> key in s.shelf.slots) && s' == s.(shelf := S.Drop(s.shelf, {key}))
    case RestoreEvent(e, delta) => SizedEntry(c, e) && delta.Some? && Inserted(c, s, e, delta.value, s')
    case RejectEvent => s' == s.(stats := s.stats.(rejected := SatAdd(s.stats.rejected, 1)))
  }
}
