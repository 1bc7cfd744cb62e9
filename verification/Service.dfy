/** The persistent cache in service: arbitrary sequences of lookups, stores, purges and
    restarts, with the life of every entry written along. */
module Service {
  import opened Prelude
  import opened Sets
  import opened Keys
  import opened Policy
  import opened Entries
  import opened Prepare
  import opened Lru
  import opened Codec
  import opened Records
  import opened Directory
  import opened DiskIndex
  import opened CacheModel
  import opened Lookups
  import opened Replies
  import opened DiskWorld
  import opened Ledger
  import opened Crashes
  import opened Scan
  import opened Replay
  import opened Recovery
  import opened Restart
  import opened Staleness
  import opened Lifetimes
  import R = Root
  import S = Shelf
  import D = DiskCache

  /** A valid cache whose entries and records have these lives. */
  ghost predicate Lively(cache: D.DiskCache, lives: Lives)
    reads cache.cache, cache.cache.store, cache.cache.board, cache.disk.root, cache.disk.index
  {
    && cache.Valid()
    && Chronicled(cache.config, cache.crc, cache.disk.root.dir.files, cache.cache.store.slots, cache.disk.index.records,
                  lives)
  }

  // ---------------------------------------------------------------- one operation

  /** `DiskCache::lookup`: what it hands out is justified by the life of the entry, and the
      record of the entry is written again. */
  method ServeLookup(cache: D.DiskCache, request: Request, now: Duration, later: Duration, wall: WallTime,
                     ghost lives: Lives)
    returns (ghost found: Option<CacheKey>, result: LookupResult, ghost deed: Deed)
    requires Lively(cache, lives) && cache.disk.index.sequence < U64_MAX
    modifies cache.cache`stats, cache.cache.store, cache.disk.root, cache.disk.index
    ensures Lively(cache, Advance(lives, deed)) && cache.disk.index.sequence <= old(cache.disk.index.sequence) + 1
    ensures LookupTaken(cache.config.memory, cache.cache.identity, old(cache.cache.State()), request, now, found,
                        result,
                        cache.cache.State())
    ensures deed == if Answers(result) then Touch(result.response.key, later, wall) else Nothing
    ensures Answers(result) ==>
              && result.response.key in lives && Evaluate(cache.config.memory, request).AskFor?
              && Justifies(cache.config.memory, lives[result.response.key], FromLookup(request, result, now))
    ensures Replied(cache.config.memory, old(cache.cache.store.slots), request, now, result)
  {
    hide S.Valid, Told, Agree, Inv, Accountable, Step, Matching, Evaluate, Renewed, Chronicled, Justifies, Advance, Sub,
         Replied, LookupTaken;
    ghost var c, crc, s, d, files :=
      cache.config, cache.crc, cache.cache.State(), cache.disk.index.records, cache.disk.root.dir.files;
    found, result := cache.Lookup(request, now, later, wall);
    deed := if Answers(result) then Touch(result.response.key, later, wall) else Nothing;
    D.SameKeys(cache.cache.store.slots, cache.disk.index.records);
    TouchKeepsLives(c, crc, files, cache.disk.root.dir.files, later, wall, D.TouchedBy(result), d, s.shelf.slots,
                    cache.disk.index.records, cache.cache.store.slots, lives);
    if Answers(result) {
      LookupServed(c, crc, files, cache.cache.identity, request, s, d, lives, now, found, result, cache.cache.State());
    }
  }

  lemma LookupServed(c: DiskConfig, crc: Bytes -> U32, files: map<nat, File>, owner: nat, request: Request, s: Mem,
                     d: Table, lives: Lives, now: Duration,
                     found: Option<CacheKey>, result: LookupResult, s': Mem)
    requires Chronicled(c, crc, files, s.shelf.slots, d, lives) && Inv(c.memory, s) && Answers(result)
    requires LookupTaken(c.memory, owner, s, request, now, found, result, s')
    ensures Evaluate(c.memory, request).AskFor? && result.response.key in lives
    ensures Justifies(c.memory, lives[result.response.key], FromLookup(request, result, now))
  {
    hide Inv, Justifies, Traced, Present, LookedUnder, Matching, EvaluateRequest, BoundedHeaders;
    var ask := Evaluate(c.memory, request);
    var matching := Matching(c.memory, s.shelf.slots, ask, request.input.headers);
    FoundResident(s, ask.base, ask.policy, matching, now, found, result, s');
    FoundIsAnswered(c.memory, s, ask.base, ask.policy, matching, now, found, result, s');
    assert Traced(c, crc, files, d[found.value], lives[found.value]);
    TracedMade(c, crc, files, d[found.value], lives[found.value]);
    LookupIsJustified(c.memory, lives[found.value], s, request, now, found, result, s');
  }

  lemma TracedMade(c: DiskConfig, crc: Bytes -> U32, files: map<nat, File>, slot: Slot<RecordInfo<Bytes>>, l: Life)
    requires Traced(c, crc, files, slot, l)
    ensures MadeFrom(c.memory, l.exchange, l.origin)
  {
    hide MadeFrom, WrittenFrom;
  }

  lemma FoundIsAnswered(c: Config, s: Mem, base: BaseKey, q: RequestPolicy, matching: set<CacheKey>, now: Duration,
                        found: Option<CacheKey>, result: LookupResult, s': Mem)
    requires LookedUnder(s, base, q, matching, now, found, result, s') && Answers(result) && Inv(c, s)
    ensures found.Some? && result.response.key == found.value
  {
    hide Judge, S.Valid, OneSchema;
    assert LabelledAt(s.shelf.slots[found.value], found.value);
  }

  /** `DiskCache::stale_if_error`. */
  method ServeError(cache: D.DiskCache, key: CacheKey, now: Duration, later: Duration, wall: WallTime,
                    ghost lives: Lives)
    returns (response: Option<Response>, ghost deed: Deed)
    requires Lively(cache, lives) && cache.disk.index.sequence < U64_MAX
    modifies cache.cache`stats, cache.cache.store, cache.disk.root, cache.disk.index
    ensures Lively(cache, Advance(lives, deed)) && cache.disk.index.sequence <= old(cache.disk.index.sequence) + 1
    ensures Step(cache.config.memory, cache.cache.identity, old(cache.cache.State()), ErrorEvent(key, now, response),
                 cache.cache.State())
    ensures deed == if response.Some? then Touch(key, later, wall) else Nothing
    ensures response.Some? ==> key in lives && Justifies(cache.config.memory, lives[key], OnError(response.value, now))
  {
    hide S.Valid, Told, Agree, Inv, Accountable, Step, Renewed, Chronicled, Justifies, Advance, Sub;
    ghost var c, crc, s, d, files :=
      cache.config, cache.crc, cache.cache.State(), cache.disk.index.records, cache.disk.root.dir.files;
    response := cache.StaleIfError(key, now, later, wall);
    deed := if response.Some? then Touch(key, later, wall) else Nothing;
    D.SameKeys(cache.cache.store.slots, cache.disk.index.records);
    TouchKeepsLives(c, crc, files, cache.disk.root.dir.files, later, wall, if response.Some? then Some(key) else None,
                    d,
                    s.shelf.slots,
                    cache.disk.index.records, cache.cache.store.slots, lives);
    if response.Some? {
      ErrorServed(c, crc, files, cache.cache.identity, s, d, lives, key, now, response, cache.cache.State());
    }
  }

  lemma ErrorServed(c: DiskConfig, crc: Bytes -> U32, files: map<nat, File>, owner: nat, s: Mem, d: Table, lives: Lives,
                    key: CacheKey, now: Duration,
                    response: Option<Response>, s': Mem)
    requires Chronicled(c, crc, files, s.shelf.slots, d, lives) && response.Some?
    requires Step(c.memory, owner, s, ErrorEvent(key, now, response), s')
    ensures key in lives && Justifies(c.memory, lives[key], OnError(response.value, now))
  {
    hide Justifies, Traced, Present, Snapshot, ServesOnError;
    assert Traced(c, crc, files, d[key], lives[key]);
    TracedMade(c, crc, files, d[key], lives[key]);
    ErrorIsJustified(c.memory, lives[key], response.value, now);
  }

  /** `store` publishes this entry: `prepare` makes it of the exchange, the guard leads the fill
      of its base, and its record is not too large. */
  ghost predicate Publishes(c: DiskConfig, crc: Bytes -> U32, s: Mem, number: nat, g: Guard, x: Exchange, now: Duration,
                            wall: WallTime, e: Entry) {
    && MadeFrom(c.memory, x, e) && e.key.base == g.base && IsCurrent(s, g)
    && var record := Encode(crc, ToImage(e, number, number, now, wall));
       record.Some? && |record.value| <= c.maxRecordBytes
  }

  /** `prepare` and `store`: the entry made of the response is published, or no entry changes. */
  method ServeStore(cache: D.DiskCache, g: Guard, x: Exchange, now: Duration, wall: WallTime, others: D.Meanwhile,
                    ghost lives: Lives)
    returns (stored: bool, ghost deed: Deed)
    requires Lively(cache, lives) && cache.disk.index.sequence < U64_MAX && g.owner == cache.cache.identity == x.owner
    requires ProperHeaders(x.response.headers) && 100 <= x.response.status <= 999 && Accepted(x.timeline)
             && D.Elsewhere(g, others)
    modifies cache.cache, cache.cache.store, cache.cache.board, cache.disk.root, cache.disk.index
    ensures Lively(cache, Advance(lives, deed)) && cache.disk.index.sequence <= old(cache.disk.index.sequence) + 1
    ensures forall e ::
              deed == Write(x, e, now, wall) <==>
                Publishes(cache.config, cache.crc, old(cache.cache.State()), old(cache.disk.index.sequence) + 1, g, x,
                          now, wall, e)
    ensures if stored then deed.Write? && deed.entry.key in cache.cache.store.slots
                           && cache.cache.store.slots[deed.entry.key].value == deed.entry
                           && SameOthers(old(cache.cache.store.slots), cache.cache.store.slots, deed.entry.key)
            else deed == Nothing && cache.cache.store.slots == old(cache.cache.store.slots)
  {
    hide S.Valid, Told, Agree, Inv, Filed, Chronicled, Advance, Sub, Admits, Bounded, D.Replaced, SameOthers,
         WrittenFrom, Recorded, IsCurrent, Encode, D.Orderly;
    hide D.Elsewhere, ProperHeaders, Weight, R.UsedBelow, Shadow;
    ghost var c, crc, s, d, files :=
      cache.config, cache.crc, cache.cache.State(), cache.disk.index.records, cache.disk.root.dir.files;
    stored, deed := false, Nothing;
    NoDeed(lives);
    QuotaFits(c);
    var prepared := PrepareInner(cache.config.memory, x.owner, x.request, x.response, x.timeline);
    if prepared.Err? {
      return;
    }
    var e := prepared.value;
    AdmittedEntry(c.memory, x, e);
    ghost var number := cache.disk.index.sequence + 1;
    ghost var middle;
    var r;
    r, middle := cache.Store(g, e, now, wall, others);
    if !D.Successful(r) {
      return;
    }
    stored, deed := true, Write(x, e, now, wall);
    D.SameKeys(cache.cache.store.slots, cache.disk.index.records);
    StoreKeepsLives(c, crc, files, cache.disk.root.dir.files, now, wall, x, e, d, middle, cache.disk.index.records,
                    r.value.evicted,
                    s.shelf.slots, cache.cache.store.slots, lives);
  }

  lemma NoDeed(lives: Lives)
    ensures Advance(lives, Nothing) == lives
  {
  }

  lemma QuotaFits(c: DiskConfig)
    ensures ValidDiskConfig(c) ==> c.memory.maxTotalBytes <= USIZE_MAX
  {
  }

  lemma AdmittedEntry(c: Config, x: Exchange, e: Entry)
    requires Accepted(x.timeline) && Admits(c, x.owner, x.request, x.response, x.timeline, e)
    ensures MadeFrom(c, x, e) && Bounded(c, e) && e.owner == x.owner
  {
    hide Bounded, Storable, BoundedHeaders, FirstOccurrences, Freshness, ResponseValidators, MatchesRequest, Varied;
  }

  datatype Purge = ByKey(key: CacheKey) | ByBase(base: BaseKey) | ByTag(tag: Bytes)

  /** The memory cache took the step of this purge; an invalid tag is refused. */
  ghost predicate PurgeTaken(c: Config, owner: nat, s: Mem, purge: Purge, result: Option<PurgeResult>, s': Mem) {
    match purge
    case ByKey(key) => result.Some? && Step(c, owner, s, PurgeKeyEvent(key, result.value), s')
    case ByBase(base) => result.Some? && Step(c, owner, s, PurgeBaseEvent(base, result.value), s')
    case ByTag(tag) =>
      && (result.None? <==> !ValidTag(tag, c.maxTagBytes))
      && if result.None? then s' == s else Step(c, owner, s, PurgeTagEvent(tag, result.value), s')
  }

  /** `purge_exact`, `purge_base` and `purge_tag`: no life changes. */
  method ServePurge(cache: D.DiskCache, purge: Purge, ghost lives: Lives) returns (result: Option<PurgeResult>)
    requires Lively(cache, lives)
    modifies cache.cache, cache.cache.store, cache.cache.board, cache.disk.root, cache.disk.index
    ensures Lively(cache, lives) && cache.disk.index.sequence == old(cache.disk.index.sequence)
    ensures PurgeTaken(cache.config.memory, cache.cache.identity, old(cache.cache.State()), purge, result,
                       cache.cache.State())
  {
    hide S.Valid, Told, Agree, Inv, Filed, Chronicled, Sub, SafeChange, Step, KeysWithTag, KeysOfBase, ValidTag,
         Accountable, Weight, R.UsedBelow;
    ghost var s, d, files := cache.cache.State(), cache.disk.index.records, cache.disk.root.dir.files;
    ghost var event := RejectEvent;
    D.SameKeys(s.shelf.slots, d);
    match purge {
      case ByKey(key) =>
        var gone := cache.PurgeExact(key);
        result, event := Some(gone), PurgeKeyEvent(key, gone);
        KeyOrNothing(s.shelf.slots, d, key);
      case ByBase(base) =>
        var gone := cache.PurgeBase(base);
        result, event := Some(gone), PurgeBaseEvent(base, gone);
      case ByTag(tag) =>
        result := cache.PurgeTag(tag);
        if result.None? {
          RemovalKeepsLives(cache.config, cache.crc, files, cache.disk.root.dir.files, d, s.shelf.slots, {}, lives);
          DropNone(s.shelf.slots, d);
          return;
        }
        event := PurgeTagEvent(tag, result.value);
    }
    D.PurgedSlots(cache.config.memory, cache.cache.identity, s, event, cache.cache.State());
    RemovalKeepsLives(cache.config, cache.crc, files, cache.disk.root.dir.files, d, s.shelf.slots, D.PurgedBy(s, event),
                      lives);
  }

  lemma KeyOrNothing(m: Slots, d: Table, key: CacheKey)
    requires m.Keys == d.Keys
    ensures d - {key} == d - {key} * m.Keys
  {
  }

  lemma DropNone(m: Slots, d: Table)
    ensures m - {} == m && d - {} == d
  {
  }

  /** Closing and opening again: every life goes on, unless the entry's authority is empty. */
  method ServeReopen(cache: D.DiskCache, owner: nat, order: seq<Name>, now: Duration, wall: WallTime,
                     ghost lives: Lives)
    returns (again: D.DiskCache, ghost deed: Deed)
    requires Lively(cache, lives) && NoRepeats(order) && Elements(order) == cache.disk.root.dir.durable.Keys
    modifies cache.disk.root
    ensures Lively(again, Advance(lives, deed)) && deed == Return(owner, now, wall)
    ensures again.config == cache.config && again.crc == cache.crc && again.disk.root == cache.disk.root
            && again.cache.identity == owner
    ensures fresh(again.cache) && fresh(again.cache.store) && fresh(again.cache.board) && fresh(again.disk.index)
    ensures Reborn(old(cache.cache.store.slots), again.cache.store.slots)
    ensures again.disk.index.sequence <= old(cache.disk.index.sequence)
  {
    hide S.Valid, Told, Agree, Inv, Filed, TracedAll, PresentAll, Sub, Elements, NoRepeats, Continues, Reborn,
         Survivors, R.UsedBelow, Accountable;
    ghost var c, crc, d, files := cache.config, cache.crc, cache.disk.index.records, cache.disk.root.dir.files;
    again := Reopen(cache, owner, order, now, wall);
    deed := Return(owner, now, wall);
    SurvivorsSub(d);
    D.SameKeys(again.cache.store.slots, again.disk.index.records);
    ReturnKeepsLives(c, crc, files, d, Survivors(d), again.cache.store.slots, owner, now, wall, lives);
  }

  lemma SurvivorsSub(d: Table)
    ensures Sub(Survivors(d), d)
  {
  }

  // ---------------------------------------------------------------- sequences of operations

  /** What may be asked of the cache. */
  datatype Call =
    | LookupCall(request: Request, now: Duration, later: Duration, wall: WallTime)
    | ErrorCall(key: CacheKey, now: Duration, later: Duration, wall: WallTime)
    | BeginCall(base: BaseKey)
    | StoreCall(guard: Guard, exchange: Exchange, now: Duration, wall: WallTime, others: D.Meanwhile)
    | CompleteCall(guard: Guard)
    | AbandonCall(guard: Guard)
    | PurgeCall(purge: Purge)
    | ReopenCall(owner: nat, now: Duration, wall: WallTime)

  /** What the calls work on: the identity of the cache, its last number and its memory. */
  datatype World = World(owner: nat, sequence: nat, memory: Mem)

  ghost function WorldOf(cache: D.DiskCache): World
    reads cache.cache, cache.cache.store, cache.cache.board, cache.disk.index
  {
    World(cache.cache.identity, cache.disk.index.sequence, cache.cache.State())
  }

  /** What a lookup hands out. */
  function FromResult(request: Request, now: Duration, result: LookupResult): Option<Given> {
    if Answers(result) then Some(FromLookup(request, result, now)) else None
  }

  function FromResponse(now: Duration, response: Option<Response>): Option<Given> {
    if response.Some? then Some(OnError(response.value, now)) else None
  }

  /** What a call does, in terms of the steps of the memory cache, what it hands out, and what it
      adds to the chronicle. */
  ghost predicate Took(c: DiskConfig, crc: Bytes -> U32, w: World, call: Call, given: Option<Given>, deed: Deed,
                       w': World) {
    && w'.sequence <= w.sequence + 1 && w'.owner == OwnerAfter(w.owner, call)
    && match call
       case LookupCall(request, now, later, wall) =>
         exists found, result ::
           && LookupTaken(c.memory, w.owner, w.memory, request, now, found, result, w'.memory)
           && Replied(c.memory, w.memory.shelf.slots, request, now, result)
           && given == FromResult(request, now, result)
           && deed == if given.Some? then Touch(result.response.key, later, wall) else Nothing
       case ErrorCall(key, now, later, wall) =>
         exists response ::
           && Step(c.memory, w.owner, w.memory, ErrorEvent(key, now, response), w'.memory)
           && given == FromResponse(now, response)
           && deed == if given.Some? then Touch(key, later, wall) else Nothing
       case StoreCall(g, x, now, wall, _) =>
         && given == None && Stored(w.memory.shelf.slots, deed, w'.memory.shelf.slots)
         && forall e ::
              deed == Write(x, e, now, wall) <==> Publishes(c, crc, w.memory, w.sequence + 1, g, x, now, wall, e)
       case BeginCall(base) =>
         given == None && deed == Nothing
         && exists join :: Step(c.memory, w.owner, w.memory, BeginEvent(base, join), w'.memory)
       case CompleteCall(g) =>
         given == None && deed == Nothing
         && exists done :: Step(c.memory, w.owner, w.memory, CompleteEvent(g, done), w'.memory)
       case AbandonCall(g) =>
         given == None && deed == Nothing && Step(c.memory, w.owner, w.memory, AbandonEvent(g), w'.memory)
       case PurgeCall(purge) =>
         given == None && deed == Nothing
         && exists result :: PurgeTaken(c.memory, w.owner, w.memory, purge, result, w'.memory)
       case ReopenCall(owner, now, wall) =>
         given == None && deed == Return(owner, now, wall) && Reborn(w.memory.shelf.slots, w'.memory.shelf.slots)
  }

  /** The entry written is there, others are old ones; without a writing, nothing changed. */
  ghost predicate Stored(m: Slots, deed: Deed, m': Slots) {
    if deed.Write? then
      deed.entry.key in m' && m'[deed.entry.key].value == deed.entry && SameOthers(m, m', deed.entry.key)
    else deed == Nothing && m' == m
  }

  function OwnerAfter(owner: nat, call: Call): nat {
    if call.ReopenCall? then call.owner else owner
  }

  /** A store uses a guard and an exchange of the cache it is called on, and responses are
      well-typed. */
  predicate Proper(call: Call, owner: nat) {
    call.StoreCall? ==>
      && call.guard.owner == owner == call.exchange.owner && Accepted(call.exchange.timeline)
      && D.Elsewhere(call.guard, call.others)
      && ProperHeaders(call.exchange.response.headers) && 100 <= call.exchange.response.status <= 999
  }

  /** A call the cache can take: it is proper, and the number it may need is below the limit. */
  predicate Takes(call: Call, owner: nat, sequence: nat) {
    Proper(call, owner) && (call.LookupCall? || call.ErrorCall? || call.StoreCall? ==> sequence < U64_MAX)
  }

  /** Lists a directory, in any order. */
  method Enumerate(names: set<Name>) returns (order: seq<Name>)
    ensures NoRepeats(order) && Elements(order) == names
  {
    order := [];
    var rest := names;
    while rest != {}
      invariant NoRepeats(order) && Elements(order) == names - rest && rest <= names
      decreases |rest|
    {
      var n :| n in rest;
      ElementsOfAppend(order, [n]);
      assert n !in Elements(order) && Elements([n]) == {n};
      order, rest := order + [n], rest - {n};
    }
  }

  /** One call. What is handed out is justified by the life of its entry before the call. */
  method Perform(cache: D.DiskCache, call: Call, ghost lives: Lives)
    returns (next: D.DiskCache, given: Option<Given>, ghost deed: Deed)
    requires Lively(cache, lives) && Takes(call, cache.cache.identity, cache.disk.index.sequence)
    modifies cache.cache, cache.cache.store, cache.cache.board, cache.disk.root, cache.disk.index
    ensures Lively(next, Advance(lives, deed))
    ensures Took(cache.config, cache.crc, old(WorldOf(cache)), call, given, deed, WorldOf(next))
    ensures next.config == cache.config && next.crc == cache.crc && next.disk.root == cache.disk.root
    ensures next == cache
            || (fresh(next.cache) && fresh(next.cache.store) && fresh(next.cache.board) && fresh(next.disk.index))
    ensures given.Some? ==> deed.Touch? && deed.key in lives
                            && Justifies(cache.config.memory, lives[deed.key], given.value)
  {
    hide Lively, Advance, Justifies, MadeFrom, Evaluate, Proper, LookupTaken, Step, Publishes, SameOthers, PurgeTaken,
         Reborn, Replied;
    next, given, deed := cache, None, Nothing;
    NoDeed(lives);
    match call {
      case LookupCall(request, now, later, wall) =>
        var result;
        ghost var found;
        found, result, deed := ServeLookup(cache, request, now, later, wall, lives);
        given := FromResult(request, now, result);
      case ErrorCall(key, now, later, wall) =>
        var response;
        response, deed := ServeError(cache, key, now, later, wall, lives);
        given := FromResponse(now, response);
      case StoreCall(g, x, now, wall, others) =>
        ProperStore(call, cache.cache.identity);
        var stored;
        stored, deed := ServeStore(cache, g, x, now, wall, others, lives);
      case PurgeCall(purge) =>
        var result := ServePurge(cache, purge, lives);
      case ReopenCall(owner, now, wall) =>
        var order := Enumerate(cache.disk.root.dir.durable.Keys);
        next, deed := ServeReopen(cache, owner, order, now, wall, lives);
      case _ => ServeFill(cache, call, lives);
    }
  }

  lemma ProperStore(call: Call, owner: nat)
    requires Proper(call, owner) && call.StoreCall?
    ensures call.guard.owner == owner == call.exchange.owner && Accepted(call.exchange.timeline)
            && D.Elsewhere(call.guard, call.others)
            && ProperHeaders(call.exchange.response.headers) && 100 <= call.exchange.response.status <= 999
  {
    hide ProperHeaders, D.Elsewhere, Accepted;
  }

  /** Starting, completing and dropping fills touches no entry and no record. */
  method ServeFill(cache: D.DiskCache, call: Call, ghost lives: Lives)
    requires Lively(cache, lives) && (call.BeginCall? || call.CompleteCall? || call.AbandonCall?)
    modifies cache.cache, cache.cache.board
    ensures Lively(cache, lives)
    ensures Took(cache.config, cache.crc, old(WorldOf(cache)), call, None, Nothing, WorldOf(cache))
  {
    hide S.Valid, Told, Agree, Inv, Filed, TracedAll, PresentAll, Step, Accountable, R.UsedBelow;
    match call {
      case BeginCall(base) => var _ := cache.BeginFill(base);
      case CompleteCall(g) => var _ := cache.CompleteWithoutStore(g);
      case AbandonCall(g) => cache.Abandon(g);
    }
  }

  /** What was handed out is justified by the life its entry had when the call was made. */
  ghost predicate Sound(c: Config, log: seq<Deed>, i: nat, given: Given) {
    && i < |log| && log[i].Touch?
    && var lives := LivesAfter(log[..i]);
       log[i].key in lives && Justifies(c, lives[log[i].key], given)
  }

  lemma SoundLater(c: Config, log: seq<Deed>, deed: Deed, i: nat, given: Given)
    requires Sound(c, log, i, given)
    ensures Sound(c, log + [deed], i, given)
  {
    hide Justifies, LivesAfter;
    assert (log + [deed])[..i] == log[..i];
  }

  lemma SoundNow(c: Config, log: seq<Deed>, deed: Deed, given: Given)
    requires deed.Touch? && deed.key in LivesAfter(log)
    requires Justifies(c, LivesAfter(log)[deed.key], given)
    ensures Sound(c, log + [deed], |log|, given)
  {
    hide Justifies, LivesAfter;
    assert (log + [deed])[..|log|] == log;
  }

  lemma LogOneMore(log: seq<Deed>, deed: Deed)
    ensures LivesAfter(log + [deed]) == Advance(LivesAfter(log), deed)
  {
    assert (log + [deed])[..|log|] == log;
  }

  lemma EmptyIsRecoverable(c: DiskConfig, crc: Bytes -> U32, dir: Dir)
    requires dir.durable == map[] && dir.pending == []
    ensures Recoverable(c, crc, dir)
  {
    hide MarksOf;
  }

  /** Nothing is found in an empty directory. */
  lemma NothingFound(c: DiskConfig, crc: Bytes -> U32, dir: Dir, order: seq<Name>, s: Scan<CacheKey>, kept: Table,
                     list: seq<CacheKey>,
                     owner: nat, now: Duration, wall: WallTime, m: Slots, records: Table)
    requires dir.durable == map[] && Opened(c, crc, dir, order, s, kept, list, owner, now, wall, m, records)
    ensures records == map[] && m == map[] && Reached(kept, list) == 0
  {
    hide MarksOf, Goal, Revived, Replayed, IsShortestPrefix, OldestFirst, Weight, Admissible, ImageAt;
    assert forall k :: k in s.found ==> FoundAt(dir.durable, MarksOf(c, crc, dir.files), order, s, k);
    assert s.found.Keys == {};
    assert kept.Keys == {};
    assert records.Keys == {} && m.Keys == {};
  }

  /** Opens an empty directory. */
  method Start(root: R.Root, c: DiskConfig, crc: Bytes -> U32, owner: nat, now: Duration, wall: WallTime)
    returns (cache: D.DiskCache)
    requires ValidDiskConfig(c) && root.Valid() && root.dir.durable == map[] && root.dir.pending == []
    modifies root
    ensures Lively(cache, LivesAfter([])) && cache.config == c && cache.crc == crc && cache.disk.root == root
    ensures cache.cache.identity == owner && cache.disk.index.sequence == 0 && cache.cache.store.slots == map[]
    ensures fresh(cache.cache) && fresh(cache.cache.store) && fresh(cache.cache.board) && fresh(cache.disk.index)
  {
    hide Recoverable, Opened, S.Valid, Told, Agree, Inv, Filed, Accountable, R.UsedBelow;
    ghost var dir := root.dir;
    EmptyIsRecoverable(c, crc, root.dir);
    ghost var scan, kept, list;
    cache, scan, kept, list := Open(root, c, crc, owner, [], now, wall);
    NothingFound(c, crc, dir, [], scan, kept, list, owner, now, wall, cache.cache.store.slots,
                 cache.disk.index.records);
    D.SameKeys(cache.cache.store.slots, cache.disk.index.records);
  }

  /** The identity of the cache that takes call `i`. */
  function OwnerAt(owner: nat, calls: seq<Call>, i: nat): nat
    requires i <= |calls|
  {
    if i == 0 then owner else OwnerAfter(OwnerAt(owner, calls, i - 1), calls[i - 1])
  }

  /** All calls are proper. */
  ghost predicate AllProper(owner: nat, calls: seq<Call>) {
    forall i :: 0 <= i < |calls| ==> Proper(calls[i], OwnerAt(owner, calls, i))
  }

  /** The run is a path through the worlds, one call after the other, from an empty memory. */
  ghost predicate Path(c: DiskConfig, crc: Bytes -> U32, owner: nat, calls: seq<Call>, replies: seq<Option<Given>>,
                       log: seq<Deed>, worlds: seq<World>) {
    && |replies| == |log| <= |calls| && |worlds| == |log| + 1
    && worlds[0].owner == owner && worlds[0].sequence == 0 && worlds[0].memory.shelf.slots == map[]
    && forall i :: 0 <= i < |log| ==> Took(c, crc, worlds[i], calls[i], replies[i], log[i], worlds[i + 1])
  }

  lemma {:induction false} WorldAt(c: DiskConfig, crc: Bytes -> U32, owner: nat, calls: seq<Call>,
                                   replies: seq<Option<Given>>, log: seq<Deed>, worlds: seq<World>, i: nat)
    requires Path(c, crc, owner, calls, replies, log, worlds) && i <= |log|
    ensures worlds[i].owner == OwnerAt(owner, calls, i) && worlds[i].sequence <= i
  {
    if i > 0 {
      WorldAt(c, crc, owner, calls, replies, log, worlds, i - 1);
      assert Took(c, crc, worlds[i - 1], calls[i - 1], replies[i - 1], log[i - 1], worlds[i]);
      hide LookupTaken, Replied, Step, Publishes, PurgeTaken, Reborn, Stored;
    }
  }

  lemma PathOneMore(c: DiskConfig, crc: Bytes -> U32, owner: nat, calls: seq<Call>, replies: seq<Option<Given>>,
                    log: seq<Deed>, worlds: seq<World>, given: Option<Given>, deed: Deed, world: World)
    requires Path(c, crc, owner, calls, replies, log, worlds) && |log| < |calls|
    requires Took(c, crc, worlds[|log|], calls[|log|], given, deed, world)
    ensures Path(c, crc, owner, calls, replies + [given], log + [deed], worlds + [world])
  {
    hide Took;
    var r, l, w := replies + [given], log + [deed], worlds + [world];
    forall i | 0 <= i < |l|
      ensures Took(c, crc, w[i], calls[i], r[i], l[i], w[i + 1])
    {
      if i < |log| {
        assert Took(c, crc, worlds[i], calls[i], replies[i], log[i], worlds[i + 1]);
      }
    }
  }

  /** The cache in service on a directory that was empty at first: through every sequence of
      calls, restarts among them, each call does what the memory cache does, and every answer is
      justified by a life that consists of nothing but the moments of these calls. All calls are
      served if they are proper and there are fewer of them than numbers. */
  method Serve(root: R.Root, c: DiskConfig, crc: Bytes -> U32, owner: nat, now: Duration, wall: WallTime,
               calls: seq<Call>)
    returns (replies: seq<Option<Given>>, ghost log: seq<Deed>, ghost worlds: seq<World>)
    requires ValidDiskConfig(c) && root.Valid() && root.dir.durable == map[] && root.dir.pending == []
    modifies root
    ensures Path(c, crc, owner, calls, replies, log, worlds)
    ensures forall i :: 0 <= i < |replies| && replies[i].Some? ==> Sound(c.memory, log, i, replies[i].value)
    ensures |log| < |calls| ==> !Takes(calls[|log|], worlds[|log|].owner, worlds[|log|].sequence)
    ensures AllProper(owner, calls) && |calls| <= U64_MAX ==> |log| == |calls|
  {
    hide Recoverable, Lively, LivesAfter, Sound, Justifies, Advance, Took, Path, AllProper, Proper;
    var cache := Start(root, c, crc, owner, now, wall);
    replies, log, worlds := [], [], [WorldOf(cache)];
    StartPath(c, crc, owner, calls, WorldOf(cache));
    for i := 0 to |calls|
      invariant |replies| == |log| == i && |worlds| == i + 1 && worlds[i] == WorldOf(cache)
      invariant Lively(cache, LivesAfter(log)) && cache.config == c && cache.crc == crc && cache.disk.root == root
      invariant fresh(cache.cache) && fresh(cache.cache.store) && fresh(cache.cache.board) && fresh(cache.disk.index)
      invariant Path(c, crc, owner, calls, replies, log, worlds)
      invariant forall j :: 0 <= j < i && replies[j].Some? ==> Sound(c.memory, log, j, replies[j].value)
    {
      if !Takes(calls[i], cache.cache.identity, cache.disk.index.sequence) {
        Refused(c, crc, owner, calls, replies, log, worlds);
        return;
      }
      ghost var deed;
      var given;
      cache, given, deed := Perform(cache, calls[i], LivesAfter(log));
      LogOneMore(log, deed);
      forall j | 0 <= j < i && replies[j].Some?
        ensures Sound(c.memory, log + [deed], j, replies[j].value)
      {
        SoundLater(c.memory, log, deed, j, replies[j].value);
      }
      if given.Some? {
        SoundNow(c.memory, log, deed, given.value);
      }
      PathOneMore(c, crc, owner, calls, replies, log, worlds, given, deed, WorldOf(cache));
      replies, log, worlds := replies + [given], log + [deed], worlds + [WorldOf(cache)];
    }
  }

  lemma StartPath(c: DiskConfig, crc: Bytes -> U32, owner: nat, calls: seq<Call>, world: World)
    requires world.owner == owner && world.sequence == 0 && world.memory.shelf.slots == map[]
    ensures Path(c, crc, owner, calls, [], [], [world])
  {
  }

  /** Only improper calls are refused, or calls when the numbers are used up. */
  lemma Refused(c: DiskConfig, crc: Bytes -> U32, owner: nat, calls: seq<Call>, replies: seq<Option<Given>>,
                log: seq<Deed>, worlds: seq<World>)
    requires Path(c, crc, owner, calls, replies, log, worlds) && |log| < |calls|
    requires !Takes(calls[|log|], worlds[|log|].owner, worlds[|log|].sequence)
    ensures !(AllProper(owner, calls) && |calls| <= U64_MAX)
  {
    hide Took, Proper;
    WorldAt(c, crc, owner, calls, replies, log, worlds, |log|);
  }
}
