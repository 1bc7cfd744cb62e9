/** The persistent cache object of `disk.rs`: the memory cache and the record store, changed
    together under the disk lock. Filesystem calls are taken to succeed, and the disk
    sequence to stay below the 64-bit limit. */
module DiskCache {
  import opened Prelude
  import opened Sets
  import opened Keys
  import opened Policy
  import opened Entries
  import opened Lru
  import opened Codec
  import opened Records
  import opened Directory
  import opened DiskIndex
  import opened CacheModel
  import opened CacheInvariants
  import opened Lookups
  import opened Replies
  import opened Ledger
  import opened Crashes
  import opened DiskWorld
  import M = MemoryCache
  import RS = RecordStore
  import S = Shelf
  import R = Root
  import RecordFacts
  import T = TagIndex

  class DiskCache {
    const config: DiskConfig
    const crc: Bytes -> U32
    const cache: M.MemoryCache
    const disk: RS.RecordStore<CacheKey, Bytes>

    constructor (config: DiskConfig, crc: Bytes -> U32, cache: M.MemoryCache, disk: RS.RecordStore<CacheKey, Bytes>)
      ensures this.config == config && this.crc == crc && this.cache == cache && this.disk == disk
    {
      this.config := config;
      this.crc := crc;
      this.cache := cache;
      this.disk := disk;
    }

    /** Records and files are sound. */
    ghost predicate DiskValid()
      reads disk.root, disk.index
    {
      && ValidDiskConfig(config) && disk.Valid()
      && S.Valid(disk.index.Shelf(), DiskLimits(config))
    }

    /** Memory and disk hold the same keys in the same order, and every record tells its
        entry. */
    ghost predicate Matches(m: Slots)
      reads disk.root, disk.index
    {
      Agree(m, disk.index.records) && Told(config, crc, disk.root.dir.files, m, disk.index.records)
    }

    ghost predicate Valid()
      reads cache, cache.store, cache.board, disk.root, disk.index
    {
      && cache.config == config.memory && cache.Valid()
      && DiskValid() && Matches(cache.store.slots)
    }

    /** Every crash since the given moment leaves the old or new versions of what changed, or
        none, and everything else. */
    ghost predicate CrashesSafely(start: seq<Dir>, files: map<nat, File>, before: Table)
      reads disk.root, disk.index
    {
      start <= disk.root.trail && Sub(files, disk.root.dir.files)
      && SafeChange(disk.root.trail, |start|, disk.root.dir.files, before, disk.index.records)
    }

    /** `Shared::touch`: publishes the entry again with a new access number. Neither the
        encoding error nor the size error can occur. */
    method Touch(key: CacheKey, now: Duration, wall: WallTime, ghost before: Slots)
      requires DiskValid() && Matches(before) && S.MovedToFront(before, cache.store.slots, key)
      requires disk.index.sequence < U64_MAX
      modifies disk.root, disk.index
      ensures DiskValid() && Matches(cache.store.slots)
      ensures disk.index.records.Keys == old(disk.index.records.Keys)
      ensures disk.index.sequence == old(disk.index.sequence) + 1
      ensures CrashesSafely(old(disk.root.trail), old(disk.root.dir.files), old(disk.index.records))
      ensures Renewed(config, crc, disk.root.dir.files, now, wall, Some(key), old(disk.index.records), before,
                disk.index.records, cache.store.slots)
    {
      hide S.Valid, S.MovedToFront, Told, SafeSince, SafeChange, Newest, Agree, Encode, Renewed, WrittenFrom;
      TouchedPresent(before, cache.store.slots, key, disk.index.records);
      if key in disk.index.records && key in cache.store.slots {
        ghost var d, files := disk.index.records, disk.root.dir.files;
        StampBelow(disk.index.Shelf(), DiskLimits(config), key);
        var entry := cache.store.slots[key].value;
        TouchedRecord(config, crc, files, before, d, key, entry, disk.index.sequence + 1, now, wall);
        var sequence := disk.index.NextSequence();
        var encoded := Encode(crc, ToImage(entry, sequence, sequence, now, wall));
        if encoded.None? || |encoded.value| > config.maxRecordBytes {
          assert false;
        } else {
          var info := disk.Refile(key, encoded.value, entry.tags, DiskLimits(config));
          AgreeTouch(before, cache.store.slots, d, key, Slot(info, sequence, |encoded.value|));
          NewSlot(disk.index.records, d, key, sequence);
          SafeRefiled(disk.root.trail, |old(disk.root.trail)|, disk.root.dir.files, d, key, disk.index.records[key]);
          TouchedTold(config, crc, files, before, cache.store.slots, d, key, info, sequence, encoded.value);
          SubPut(files, info.inode, File(encoded.value, true));
          TouchedWritten(config, crc, files, before, cache.store.slots, d, key, info, sequence, now, wall);
        }
      }
    }

    /** Removes records of entries that have left, or are about to leave, memory. */
    method EraseRecords(keys: set<CacheKey>, ghost before: Slots)
      requires DiskValid() && Matches(before) && keys <= disk.index.records.Keys
      modifies disk.root, disk.index
      ensures DiskValid() && Matches(before - keys)
      ensures disk.index.records == old(disk.index.records) - keys && disk.index.sequence == old(disk.index.sequence)
      ensures disk.root.dir.files == old(disk.root.dir.files)
      ensures CrashesSafely(old(disk.root.trail), old(disk.root.dir.files), old(disk.index.records))
      ensures SafeSince(disk.root.trail, |old(disk.root.trail)|, disk.root.dir.files, disk.index.records,
                        old(disk.index.records), old(disk.index.records))
    {
      hide S.Valid, S.Drop, Told, SafeSince, SafeChange, Agree;
      ghost var h := disk.index.Shelf();
      RS.ValidBytes(h, DiskLimits(config));
      S.DropKeepsValid(h, keys, DiskLimits(config));
      disk.Erase(keys);
      S.DropSlots(h, keys);
      AgreeDrop(before, h.slots, keys);
      ToldDrop(config, crc, disk.root.dir.files, before, h.slots, keys);
      SafeErased(disk.root.trail, |old(disk.root.trail)|, disk.root.dir.files, h.slots, keys);
    }

    /** `Shared::reconcile_base`: removes the records of a base whose entries left memory. */
    method ReconcileBase(base: BaseKey, ghost before: Slots, ghost gone: set<CacheKey>)
      requires DiskValid() && Matches(before) && cache.store.slots == before - gone
      requires forall k :: k in gone ==> k.base == base
      modifies disk.root, disk.index
      ensures DiskValid() && Matches(cache.store.slots) && Sub(disk.index.records, old(disk.index.records))
      ensures disk.index.sequence == old(disk.index.sequence)
      ensures CrashesSafely(old(disk.root.trail), old(disk.root.dir.files), old(disk.index.records))
    {
      hide S.Valid, Told, SafeChange;
      var keys := set k | k in disk.index.records && k.base == base && k !in cache.store.slots;
      LeftMemory(before, disk.index.records, base, gone);
      EraseRecords(keys, before);
    }

    /** `DiskCache::lookup`; `touch` reads the clock again. */
    method Lookup(request: Request, now: Duration, later: Duration, wall: WallTime)
      returns (ghost found: Option<CacheKey>, result: LookupResult)
      requires Valid() && disk.index.sequence < U64_MAX
      modifies cache`stats, cache.store, disk.root, disk.index
      ensures Valid()
      ensures LookupTaken(config.memory, cache.identity, old(cache.State()), request, now, found, result, cache.State())
      ensures Replied(config.memory, old(cache.store.slots), request, now, result)
      ensures disk.index.sequence <= old(disk.index.sequence) + 1
      ensures CrashesSafely(old(disk.root.trail), old(disk.root.dir.files), old(disk.index.records))
      ensures Renewed(config, crc, disk.root.dir.files, later, wall, TouchedBy(result), old(disk.index.records),
                      old(cache.store.slots),
                disk.index.records, cache.store.slots)
    {
      hide S.Valid, Told, SafeChange, Agree, LookupTaken, Replied, Inv, Accountable, Renewed, WrittenFrom,
           S.MovedToFront;
      ghost var s := cache.State();
      ghost var key;
      key, result := cache.Lookup(request, now);
      found := key;
      LookupMoves(config.memory, cache.identity, s, request, now, found, result, cache.State());
      match result {
        case Hit(_, response) => Touch(response.key, later, wall, s.shelf.slots);
        case Conditional(response, _, _) => Touch(response.key, later, wall, s.shelf.slots);
        case Miss(_, base) =>
          ghost var gone := if cache.store.slots == s.shelf.slots - {} then {} else {found.value};
          ReconcileBase(base, s.shelf.slots, gone);
          RemovalRenews(config, crc, disk.root.dir.files, later, wall, old(disk.index.records), s.shelf.slots,
                        disk.index.records, cache.store.slots);
        case _ =>
          SafeNoChange(disk.root.trail, disk.root.dir.files, disk.index.records);
          RemovalRenews(config, crc, disk.root.dir.files, later, wall, disk.index.records, s.shelf.slots,
                        disk.index.records, cache.store.slots);
      }
    }

    /** `DiskCache::stale_if_error`. */
    method StaleIfError(key: CacheKey, now: Duration, later: Duration, wall: WallTime)
      returns (response: Option<Response>)
      requires Valid() && disk.index.sequence < U64_MAX
      modifies cache`stats, cache.store, disk.root, disk.index
      ensures Valid()
      ensures Step(config.memory, cache.identity, old(cache.State()), ErrorEvent(key, now, response), cache.State())
      ensures ErrorReplied(old(cache.store.slots), key, now, response)
      ensures disk.index.sequence <= old(disk.index.sequence) + 1
      ensures CrashesSafely(old(disk.root.trail), old(disk.root.dir.files), old(disk.index.records))
      ensures Renewed(config, crc, disk.root.dir.files, later, wall, if response.Some? then Some(key) else None,
                old(disk.index.records), old(cache.store.slots), disk.index.records, cache.store.slots)
    {
      hide S.Valid, Told, SafeChange, Agree, Step, Inv, Accountable, Renewed, WrittenFrom, S.MovedToFront, ErrorReplied;
      ghost var s := cache.State();
      response := cache.StaleIfError(key, now);
      ErrorMoves(config.memory, cache.identity, s, key, now, response, cache.State());
      if response.Some? {
        Touch(key, later, wall, s.shelf.slots);
      } else {
        SafeNoChange(disk.root.trail, disk.root.dir.files, disk.index.records);
        RemovalRenews(config, crc, disk.root.dir.files, later, wall, disk.index.records, s.shelf.slots,
                      disk.index.records, cache.store.slots);
      }
    }

    // -------------------------------------------------------------- fills

    /** `DiskCache::begin_fill`. */
    method BeginFill(base: BaseKey) returns (join: Join)
      requires Valid()
      modifies cache`stats, cache.board
      ensures Valid()
      ensures Step(config.memory, cache.identity, old(cache.State()), BeginEvent(base, join), cache.State())
    {
      hide S.Valid, Told, Agree, Step, Inv, Accountable;
      join := cache.BeginFill(base);
    }

    /** `DiskFillGuard::complete_without_store`. */
    method CompleteWithoutStore(g: Guard) returns (done: bool)
      requires Valid()
      modifies cache.board
      ensures Valid()
      ensures Step(config.memory, cache.identity, old(cache.State()), CompleteEvent(g, done), cache.State())
    {
      hide S.Valid, Told, Agree, Step, Inv, Accountable;
      done := cache.CompleteWithoutStore(g);
    }

    /** Dropping a guard. */
    method Abandon(g: Guard)
      requires Valid()
      modifies cache`stats, cache.board
      ensures Valid()
      ensures Step(config.memory, cache.identity, old(cache.State()), AbandonEvent(g), cache.State())
    {
      hide S.Valid, Told, Agree, Step, Inv, Accountable;
      cache.Abandon(g);
    }

    /** `DiskCache::shutdown`: cancels all fills and syncs the root once more. */
    method Shutdown()
      requires Valid()
      modifies cache`stats, cache.board, disk.root
      ensures Valid() && disk.root.dir == old(disk.root.dir)
      ensures Step(config.memory, cache.identity, old(cache.State()), CancelAllEvent, cache.State())
    {
      hide S.Valid, Told, Agree, Step, Inv, Accountable;
      cache.CancelAllFills();
      disk.root.Fsync();
    }

    // -------------------------------------------------------------- purges

    /** `DiskCache::purge_exact`: the record goes first, then the entry and its fill. */
    method PurgeExact(key: CacheKey) returns (result: PurgeResult)
      requires Valid()
      modifies cache, cache.store, cache.board, disk.root, disk.index
      ensures Valid()
      ensures Step(config.memory, cache.identity, old(cache.State()), PurgeKeyEvent(key, result), cache.State())
      ensures CrashesSafely(old(disk.root.trail), old(disk.root.dir.files), old(disk.index.records))
      ensures disk.index.records == old(disk.index.records) - {key} && disk.index.sequence == old(disk.index.sequence)
    {
      hide S.Valid, Told, SafeChange, Agree, Step, Inv, Accountable;
      ghost var s := cache.State();
      SameKeys(s.shelf.slots, disk.index.records);
      OneKey(s.shelf.slots, disk.index.records, key);
      EraseRecords({key} * disk.index.records.Keys, s.shelf.slots);
      result := cache.PurgeExact(key);
      PurgedSlots(config.memory, cache.identity, s, PurgeKeyEvent(key, result), cache.State());
    }

    /** `DiskCache::purge_base`. */
    method PurgeBase(base: BaseKey) returns (result: PurgeResult)
      requires Valid()
      modifies cache, cache.store, cache.board, disk.root, disk.index
      ensures Valid()
      ensures Step(config.memory, cache.identity, old(cache.State()), PurgeBaseEvent(base, result), cache.State())
      ensures CrashesSafely(old(disk.root.trail), old(disk.root.dir.files), old(disk.index.records))
      ensures disk.index.records == old(disk.index.records) - KeysOfBase(old(disk.index.records.Keys), base)
      ensures disk.index.sequence == old(disk.index.sequence)
    {
      hide S.Valid, Told, SafeChange, Agree, Step, Inv, Accountable, KeysOfBase;
      ghost var s := cache.State();
      SameKeys(s.shelf.slots, disk.index.records);
      BaseKeysResident(disk.index.records.Keys, base);
      EraseRecords(KeysOfBase(disk.index.records.Keys, base), s.shelf.slots);
      result := cache.PurgeBase(base);
      PurgedSlots(config.memory, cache.identity, s, PurgeBaseEvent(base, result), cache.State());
    }

    /** `DiskCache::purge_tag`: the keys come from the recovered tag index; they are exactly
        the resident keys with the tag. */
    method PurgeTag(tag: Bytes) returns (result: Option<PurgeResult>)
      requires Valid()
      modifies cache, cache.store, cache.board, disk.root, disk.index
      ensures Valid()
      ensures result.None? <==> !ValidTag(tag, config.memory.maxTagBytes)
      ensures result.None? ==> cache.State() == old(cache.State()) && disk.index.records == old(disk.index.records)
      ensures result.Some? ==>
                Step(config.memory, cache.identity, old(cache.State()), PurgeTagEvent(tag, result.value), cache.State())
      ensures result.Some? ==> disk.index.records == old(disk.index.records) - KeysWithTag(old(cache.store.slots), tag)
      ensures disk.index.sequence == old(disk.index.sequence)
      ensures CrashesSafely(old(disk.root.trail), old(disk.root.dir.files), old(disk.index.records))
    {
      hide S.Valid, Told, SafeChange, Agree, Step, Inv, Accountable, KeysWithTag, ValidTag;
      ghost var s := cache.State();
      if !ValidTag(tag, config.memory.maxTagBytes) {
        SafeNoChange(disk.root.trail, disk.root.dir.files, disk.index.records);
        return None;
      }
      var keys := disk.index.KeysTagged(tag);
      TaggedKeys(config, crc, disk.root.dir.files, s.shelf.slots, disk.index.records, tag);
      EraseRecords(keys, s.shelf.slots);
      result := cache.PurgeTag(tag);
      PurgedSlots(config.memory, cache.identity, s, PurgeTagEvent(tag, result.value), cache.State());
    }

    // -------------------------------------------------------------- store

    /** The victims leave memory without disturbing their fills. */
    method DropFromMemory(victims: set<CacheKey>)
      requires cache.Valid()
      modifies cache.store
      ensures cache.Valid()
      ensures cache.State() == old(cache.State()).(shelf := S.Drop(old(cache.State()).shelf, victims))
    {
      hide S.Drop, Inv, Accountable;
      ghost var s := cache.State();
      EntriesBytes(cache.config, s);
      ghost var done: set<CacheKey> := {};
      var rest := victims;
      DropNothing(s.shelf);
      while rest != {}
        invariant cache.Valid() && done + rest == victims && done !! rest
        invariant cache.State() == s.(shelf := S.Drop(s.shelf, done))
        decreases |rest|
      {
        var key :| key in rest;
        MoveOne(done, rest, key);
        S.DropTwice(s.shelf, done, {key});
        var _ := cache.RemoveWithoutCancellingFill(key);
        rest, done := rest - {key}, done + {key};
      }
      assert done == victims;
    }

    /** Other threads drop or complete guards of other generations, which takes only the lock
        of the memory cache. */
    method LetOthersAct(g: Guard, acts: seq<Act>)
      requires cache.Valid() && IsCurrent(cache.State(), g) && OnOthers(g, acts)
      modifies cache`stats, cache.board
      ensures cache.Valid() && IsCurrent(cache.State(), g) && cache.State().shelf == old(cache.State()).shelf
    {
      hide Inv, Accountable, IsCurrent;
      for i := 0 to |acts|
        invariant cache.Valid() && IsCurrent(cache.State(), g) && cache.State().shelf == old(cache.State()).shelf
      {
        ghost var s := cache.State();
        OtherAbandoned(s, g, acts[i].guard);
        match acts[i] {
          case Drop(o) => cache.Abandon(o);
          case Finish(o) =>
            var done := cache.CompleteWithoutStore(o);
            OtherCompleted(s, g, o, done, cache.State());
        }
      }
    }

    /** The number just taken is above every stamp. */
    ghost predicate Numbered()
      reads disk.index
    {
      0 < disk.index.sequence && S.StampsUpTo(disk.index.records, disk.index.sequence - 1)
    }

    /** The first half of `store`: the replaced and conflicting records and the shortest least
        recently used prefix of the others leave disk and memory. */
    method MakeRoom(key: CacheKey, size: nat) returns (victims: set<CacheKey>)
      requires Valid() && Numbered() && size <= config.maxDiskBytes
      modifies cache.store, disk.root, disk.index
      ensures Valid() && Numbered() && disk.index.sequence == old(disk.index.sequence)
      ensures cache.State() == old(cache.State()).(shelf := S.Drop(old(cache.State()).shelf, victims))
      ensures disk.index.records == old(disk.index.records) - victims && victims <= old(disk.index.records.Keys)
      ensures var mandatory := Displaced(old(disk.index.records.Keys), key);
              mandatory <= victims
              && IsShortestPrefix(old(disk.index.records) - mandatory, victims - mandatory, RoomOnDisk(config, size))
      ensures disk.root.dir.files == old(disk.root.dir.files) && old(disk.root.trail) <= disk.root.trail
      ensures SafeSince(disk.root.trail, |old(disk.root.trail)|, disk.root.dir.files, disk.index.records,
                        old(disk.index.records), old(disk.index.records))
    {
      hide S.Valid, S.Drop, Told, SafeSince, SafeChange, Agree, Inv, Accountable, Displaced, IsShortestPrefix;
      ghost var s := cache.State();
      DiskBytes(disk.index.Shelf(), DiskLimits(config));
      var mandatory := Displaced(disk.index.records.Keys, key);
      DisplacedResident(disk.index.records.Keys, key);
      var chosen := disk.index.AdmissionVictims(mandatory, size, config.maxDiskFiles, config.maxDiskBytes);
      victims := chosen.value;
      EraseRecords(victims, s.shelf.slots);
      DropFromMemory(victims);
      S.DropSlots(s.shelf, victims);
    }

    /** `store_claimed` for a current generation and a key with nothing to displace. */
    method ShowInMemory(g: Guard, e: Entry) returns (delta: Delta)
      requires cache.Valid() && IsCurrent(cache.State(), g) && e.key.base == g.base && SizedEntry(cache.config, e)
      requires Displaced(cache.store.slots.Keys, e.key) == {}
      modifies cache, cache.store, cache.board
      ensures cache.Valid() && !IsCurrent(cache.State(), g)
      ensures delta.inserted == e.key && e.key !in Elements(delta.removed)
              && Elements(delta.removed) <= old(cache.store.slots.Keys)
      ensures S.PutOver(old(cache.store.slots), cache.store.slots, e.key, e, e.charge, Elements(delta.removed))
      ensures IsPrefix(old(cache.store.slots), Elements(delta.removed))
    {
      hide S.PutOver, Step, Inv, Accountable, IsCurrent, SizedEntry, Displaced, IsPrefix;
      ghost var s := cache.State();
      var stored := cache.StoreClaimed(g, e);
      PublishMoves(cache.config, cache.identity, s, g, e, stored, cache.State());
      delta := stored.value;
    }

    /** The second half of `store`: publish the record, make the entry visible in memory, and
        remove what memory evicted for it. The generation cannot be lost in between: other
        threads can only drop or complete guards of other generations. */
    method Admit(g: Guard, e: Entry, bytes: Bytes, acts: seq<Act>) returns (delta: Delta, ghost middle: Table)
      requires Valid() && Numbered()
      requires IsCurrent(cache.State(), g) && e.key.base == g.base && Bounded(config.memory, e)
      requires Displaced(disk.index.records.Keys, e.key) == {}
      requires Fits(disk.index.records, RoomOnDisk(config, |bytes|)) && 2 <= |bytes| <= config.maxRecordBytes
      requires Tells(crc, bytes, disk.index.sequence, e) && OnOthers(g, acts)
      modifies cache, cache.store, cache.board, disk.root, disk.index
      ensures Valid() && !IsCurrent(cache.State(), g) && disk.index.sequence == old(disk.index.sequence)
      ensures SameOthers(old(cache.store.slots), cache.store.slots, e.key)
      ensures FiledAs(disk.root.dir.files, middle, e.key, old(disk.index.sequence), bytes)
      ensures Admitted(config, old(disk.index.records), middle, disk.index.records, e.key, Elements(delta.removed))
      ensures Orderly(middle, disk.index.records)
      ensures e.key in cache.store.slots && cache.store.slots[e.key].value == e
      ensures Sub(old(disk.root.dir.files), disk.root.dir.files) && old(disk.root.trail) <= disk.root.trail
      ensures NewRecord(config, crc, disk.root.dir.files, e, middle)
      ensures SafeSince(disk.root.trail, |old(disk.root.trail)|, disk.root.dir.files,
                old(disk.index.records) - Elements(delta.removed), middle, middle)
    {
      hide NewRecord, S.Valid, S.PutOver, Told, SafeSince, Agree, Inv, Accountable, Bounded, Tells, Displaced, Newest,
           IsCurrent, Fits, Admitted, IsPrefix, Orderly, OneSchema;
      hide Filed, R.UsedBelow, T.Exact, Carried, Weight, Elements, S.StampsUpTo, OnOthers, SameOthers;
      ghost var s, d, files, start := cache.State(), disk.index.records, disk.root.dir.files, disk.root.trail;
      SameKeys(s.shelf.slots, d);
      AbsentKey(d.Keys, e.key);
      BoundedIsSized(config.memory, e);
      hide SizedEntry;
      var info := disk.Enter(e.key, bytes, e.tags, DiskLimits(config));
      middle := disk.index.records;
      ghost var h := disk.index.Shelf();
      RecordIsNew(config, crc, disk.root.dir, h, files, e, bytes);
      SchemasOf(config.memory, s);
      LetOthersAct(g, acts);
      delta := ShowInMemory(g, e);
      EvictedOnly(config, crc, s.shelf.slots, cache.store.slots, d, files, e, bytes, middle[e.key],
                  Elements(delta.removed));
      SubPut(d, e.key, middle[e.key]);
      disk.EraseAfter(Elements(delta.removed), start, d, DiskLimits(config));
      AdmittedTables(config, h, d, e.key, middle[e.key], Elements(delta.removed));
    }

    /** `store` from the admission of an acceptable record on. */
    method Replace(g: Guard, e: Entry, bytes: Bytes, others: Meanwhile) returns (evicted: nat, ghost middle: Table)
      requires Valid() && Numbered()
      requires IsCurrent(cache.State(), g) && e.key.base == g.base && Bounded(config.memory, e)
      requires Elsewhere(g, others)
      requires 2 <= |bytes| <= config.maxRecordBytes && Tells(crc, bytes, disk.index.sequence, e)
      modifies cache, cache.store, cache.board, disk.root, disk.index
      ensures Valid() && !IsCurrent(cache.State(), g) && disk.index.sequence == old(disk.index.sequence)
      ensures SameOthers(old(cache.store.slots), cache.store.slots, e.key)
      ensures FiledAs(disk.root.dir.files, middle, e.key, old(disk.index.sequence), bytes)
      ensures Replaced(config, old(disk.index.records), middle, disk.index.records, e.key, evicted)
      ensures Orderly(middle, disk.index.records)
      ensures e.key in cache.store.slots && cache.store.slots[e.key].value == e
      ensures Sub(old(disk.root.dir.files), disk.root.dir.files) && old(disk.root.trail) <= disk.root.trail
      ensures NewRecord(config, crc, disk.root.dir.files, e, middle)
      ensures SafeSince(disk.root.trail, |old(disk.root.trail)|, disk.root.dir.files,
                disk.index.records - {e.key}, old(disk.index.records), middle)
    {
      hide NewRecord, S.Valid, S.Drop, Told, SafeSince, SafeChange, Agree, Inv, Accountable, Bounded, Tells, Displaced,
           IsCurrent, Fits, Admitted;
      hide Sub, Filed, R.UsedBelow, T.Exact, Carried, Weight, Elements, IsShortestPrefix, OnOthers, SameOthers, FiledAs,
           Orderly;
      ghost var d, start, files, h := disk.index.records, disk.root.trail, disk.root.dir.files, cache.State().shelf;
      var victims := MakeRoom(e.key, |bytes|);
      ghost var first := disk.root.trail;
      SameCurrent(cache.State(), g);
      LetOthersAct(g, others.early);
      RoomMade(config, d, victims, e.key, |bytes|);
      var delta;
      delta, middle := Admit(g, e, bytes, others.late);
      S.DropSlots(h, victims);
      SameOthersDropped(h.slots, victims, cache.store.slots, e.key);
      evicted := |victims| + |Elements(delta.removed)|;
      ReplacedTables(config, d, victims, middle, disk.index.records, e.key, Elements(delta.removed));
      ReplacedSafely(config, start, first, disk.root.trail, files, disk.root.dir.files, d, d - victims, middle,
                     disk.index.records, e.key, Elements(delta.removed));
    }

    /** The record `store` would write for an entry. */
    function RecordFor(e: Entry, sequence: nat, now: Duration, wall: WallTime): Option<Bytes> {
      Encode(crc, ToImage(e, sequence, sequence, now, wall))
    }

    predicate TooLarge(record: Option<Bytes>) {
      record.None? || |record.value| > config.maxRecordBytes
    }

    /** `DiskFillGuard::store`. At every crash point the disk holds the old record of the key,
        none, or the new complete one, every record that is still there at the end, and
        never more than the quotas allow. A current generation is never lost, whatever other
        threads do with guards of other generations meanwhile; the quota error cannot occur. */
    method Store(g: Guard, e: Entry, now: Duration, wall: WallTime, others: Meanwhile)
      returns (r: Result<StoreOutcome, StoreError>, ghost middle: Table)
      requires Valid() && disk.index.sequence < U64_MAX && g.owner == cache.identity
      requires e.owner == cache.identity ==> Bounded(config.memory, e)
      requires Elsewhere(g, others)
      modifies cache, cache.store, cache.board, disk.root, disk.index
      ensures Valid() && disk.index.sequence <= old(disk.index.sequence) + 1
      ensures r.Err? && r.error == OwnerMismatch <==> e.owner != g.owner
      ensures r.Err? && r.error == FillKeyMismatch <==> e.owner == g.owner && e.key.base != g.base
      ensures r == Ok(GenerationLost) <==> e.owner == g.owner && e.key.base == g.base
                                           && !old(IsCurrent(cache.State(), g))
      ensures r == Err(RecordTooLarge) <==> e.owner == g.owner && e.key.base == g.base
                                            && old(IsCurrent(cache.State(), g))
                                            && TooLarge(RecordFor(e, old(disk.index.sequence) + 1, now, wall))
      ensures !Successful(r) ==> disk.root.dir == old(disk.root.dir) && disk.index.records == old(disk.index.records)
                                 && cache.store.slots == old(cache.store.slots)
      ensures Successful(r) ==>
                Replaced(config, old(disk.index.records), middle, disk.index.records, e.key, r.value.evicted)
      ensures Successful(r) ==> Orderly(middle, disk.index.records)
      ensures Successful(r) ==> e.key in cache.store.slots && cache.store.slots[e.key].value == e
      ensures Successful(r) ==> Recorded(config, crc, disk.root.dir.files, Shadow(old(cache.store.slots), e), middle)
      ensures Successful(r) ==> Sub(old(disk.root.dir.files), disk.root.dir.files)
                                && old(disk.root.trail) <= disk.root.trail
                                && SafeSince(disk.root.trail, |old(disk.root.trail)|, disk.root.dir.files,
                                     disk.index.records - {e.key}, old(disk.index.records), middle)
      ensures Successful(r) ==>
                e.key in middle && WrittenFrom(config, crc, disk.root.dir.files, middle[e.key], Writing(e, now, wall))
      ensures Successful(r) ==> SameOthers(old(cache.store.slots), cache.store.slots, e.key)
      ensures !IsCurrent(cache.State(), g)
    {
      hide S.Valid, S.Drop, Told, SafeSince, SafeChange, Agree, Inv, Accountable, Bounded, Tells, Displaced, IsCurrent,
           Fits, Admitted, Encode;
      hide Recorded, NewRecord, Sub, Labelled, Filed, R.UsedBelow, T.Exact, Carried, Weight, Elements, IsShortestPrefix,
           Abandoned, Elsewhere, SameOthers, Orderly;
      middle := disk.index.records;
      if e.owner != g.owner || e.key.base != g.base {
        NotCurrentAfter(cache.State(), g);
        cache.Abandon(g);
        return Err(if e.owner != g.owner then OwnerMismatch else FillKeyMismatch), middle;
      }
      var current := cache.CheckCurrent(g);
      if !current {
        return Ok(GenerationLost), middle;
      }
      var sequence := disk.index.NextSequence();
      RS.NumberedAbove(disk.index.Shelf().(clock := sequence - 1), sequence, DiskLimits(config));
      var encoded := RecordFor(e, sequence, now, wall);
      if TooLarge(encoded) {
        NotCurrentAfter(cache.State(), g);
        cache.Abandon(g);
        return Err(RecordTooLarge), middle;
      }
      FirstEncoding(crc, e, sequence, now, wall);
      RecordFacts.RecordAtLeast(crc, ToImage(e, sequence, sequence, now, wall));
      ghost var m, d, files := cache.State(), disk.index.records, disk.root.dir.files;
      LabelsIn(config.memory, m);
      RunningIsRecorded(config, crc, disk.root.dir, m.shelf.slots, disk.index.Shelf());
      var evicted;
      evicted, middle := Replace(g, e, encoded.value, others);
      StoredIsRecorded(config, crc, files, disk.root.dir.files, m.shelf.slots, d, e, middle, disk.index.records,
                       evicted);
      r := Ok(Stored(evicted));
    }
  }

  // ---------------------------------------------------------------- lemmas for Touch

  lemma StampBelow<K(!new), V>(h: S.Shelf<K, V>, limits: S.Limits, k: K)
    requires S.Valid(h, limits) && k in h.slots
    ensures h.slots[k].stamp <= h.clock
  {
  }

  lemma NewSlot(after: Table, before: Table, key: CacheKey, sequence: nat)
    requires key in before && key in after && before[key].stamp < sequence == after[key].stamp
    ensures before[key] != after[key]
  {
  }

  lemma TouchedPresent(before: Slots, after: Slots, key: CacheKey, d: Table)
    requires S.MovedToFront(before, after, key) && Agree(before, d)
    ensures key in before && key in d && key in after && after[key].value == before[key].value
  {
  }

  lemma TouchedRecord(c: DiskConfig, crc: Bytes -> U32, files: map<nat, File>, m: Slots, d: Table, key: CacheKey,
                      e: Entry, sequence: nat, now: Duration, wall: WallTime)
    requires Told(c, crc, files, m, d) && AllFiled(files, d) && key in m && key in d && e == m[key].value
             && sequence <= U64_MAX
    ensures var r := Encode(crc, ToImage(e, sequence, sequence, now, wall));
            && r.Some? && |r.value| == d[key].weight <= c.maxRecordBytes
            && Tells(crc, r.value, sequence, e)
  {
    assert ToldAt(c, crc, files, d[key], e) && FiledAt(files, d[key]);
    hide Encode, Tells, Bounded;
    NextEncoding(crc, files[d[key].value.inode].bytes, d[key].stamp, e, sequence, now, wall);
  }

  lemma TouchedTold(c: DiskConfig, crc: Bytes -> U32, files: map<nat, File>, m: Slots, m': Slots, d: Table,
                    key: CacheKey, info: RecordInfo<Bytes>, sequence: nat, bytes: Bytes)
    requires Told(c, crc, files, m, d) && S.MovedToFront(m, m', key) && key in d
    requires info.inode !in files && info.tags == m[key].value.tags
    requires |bytes| == d[key].weight && Tells(crc, bytes, sequence, m[key].value)
    ensures Told(c, crc, files[info.inode := File(bytes, true)], m', d[key := Slot(info, sequence, |bytes|)])
  {
    hide Tells, Bounded;
    assert ToldAt(c, crc, files, d[key], m[key].value);
    ToldTouch(c, crc, files, files[info.inode := File(bytes, true)], m, m', d, key, Slot(info, sequence, |bytes|));
  }

  lemma TouchedWritten(c: DiskConfig, crc: Bytes -> U32, files: map<nat, File>, m: Slots, m': Slots, d: Table,
                       key: CacheKey,
                       info: RecordInfo<Bytes>, sequence: nat, now: Duration, wall: WallTime)
    requires Told(c, crc, files, m, d) && S.MovedToFront(m, m', key) && key in d
    requires Encode(crc, ToImage(m[key].value, sequence, sequence, now, wall)).Some?
    requires |Encode(crc, ToImage(m[key].value, sequence, sequence, now, wall)).value| <= c.maxRecordBytes
    ensures var bytes := Encode(crc, ToImage(m[key].value, sequence, sequence, now, wall)).value;
            var more, slot := files[info.inode := File(bytes, true)], Slot(info, sequence, |bytes|);
            Renewed(c, crc, more, now, wall, Some(key), d, m, d[key := slot], m')
  {
    hide Encode, Bounded, Tells;
    assert ToldAt(c, crc, files, d[key], m[key].value);
  }

  // ---------------------------------------------------------------- lemmas for the others

  /** The records to reconcile are those of the entries that left memory. */
  lemma LeftMemory(before: Slots, d: Table, base: BaseKey, gone: set<CacheKey>)
    requires Agree(before, d) && forall k :: k in gone ==> k.base == base
    ensures before - (set k | k in d && k.base == base && k !in before - gone) == before - gone
  {
    assert forall k :: k in before - gone <==> k in before && k !in gone;
  }

  /** The entry a lookup handed out, which is touched. */
  function TouchedBy(result: LookupResult): Option<CacheKey> {
    if result.Hit? || result.Conditional? then Some(result.response.key) else None
  }

  ghost predicate LookupEffectOn(before: Slots, found: Option<CacheKey>, result: LookupResult, after: Slots) {
    match result
    case Hit(_, response) => S.MovedToFront(before, after, response.key)
    case Conditional(response, _, _) => S.MovedToFront(before, after, response.key)
    case Miss(_, base) =>
      after == before - {} || (found.Some? && found.value.base == base && after == before - {found.value})
    case _ => after == before
  }

  lemma LookupMoves(c: Config, owner: nat, s: Mem, request: Request, now: Duration, found: Option<CacheKey>,
                    result: LookupResult, s': Mem)
    requires Accountable(c) && Inv(c, s) && LookupTaken(c, owner, s, request, now, found, result, s')
    ensures LookupEffectOn(s.shelf.slots, found, result, s'.shelf.slots)
  {
    var ask := Evaluate(c, request);
    var matching := Matching(c, s.shelf.slots, ask, request.input.headers);
    hide Evaluate, Matching, LookedUnder, S.Valid;
    LookupEffects(s, ask, matching, now, found, result, s');
    EffectMoves(c, s.shelf, found, result, s'.shelf);
  }

  lemma EffectMoves(c: Config, s: Store, found: Option<CacheKey>, result: LookupResult, s': Store)
    requires Accountable(c) && EntriesInv(c, s) && LookupEffect(s, found, result, s')
    ensures LookupEffectOn(s.slots, found, result, s'.slots)
  {
    hide S.Valid, S.Touch, S.Drop, S.MovedToFront;
    match result {
      case Hit(_, response) => S.TouchKeepsValid(s, response.key, LimitsOf(c));
      case Conditional(response, _, _) => S.TouchKeepsValid(s, response.key, LimitsOf(c));
      case Miss(_, _) =>
        assert s.slots - {} == s.slots;
        if s' != s {
          S.DropSlots(s, {found.value});
        }
      case _ =>
    }
  }

  lemma ErrorMoves(c: Config, owner: nat, s: Mem, key: CacheKey, now: Duration, response: Option<Response>, s': Mem)
    requires Accountable(c) && Inv(c, s) && Step(c, owner, s, ErrorEvent(key, now, response), s')
    ensures if response.Some? then S.MovedToFront(s.shelf.slots, s'.shelf.slots, key) else s'.shelf == s.shelf
  {
    hide S.Valid, S.Touch, S.MovedToFront;
    if response.Some? {
      S.TouchKeepsValid(s.shelf, key, LimitsOf(c));
    }
  }

  lemma SameKeys<K(!new), V, W>(m: map<K, Slot<V>>, d: map<K, Slot<W>>)
    requires Agree(m, d)
    ensures m.Keys == d.Keys
  {
  }

  lemma OneKey(m: Slots, d: Table, key: CacheKey)
    requires m.Keys == d.Keys
    ensures d - {key} * d.Keys == d - {key}
  {
  }

  lemma BaseKeysResident(keys: set<CacheKey>, base: BaseKey)
    ensures KeysOfBase(keys, base) <= keys
  {
  }

  /** What a purge event takes out. */
  ghost function PurgedBy(s: Mem, event: Event): set<CacheKey> {
    match event
    case PurgeKeyEvent(key, _) => {key} * s.shelf.slots.Keys
    case PurgeBaseEvent(base, _) => KeysOfBase(s.shelf.slots.Keys, base)
    case PurgeTagEvent(tag, _) => KeysWithTag(s.shelf.slots, tag)
    case _ => {}
  }

  lemma PurgedSlots(c: Config, owner: nat, s: Mem, event: Event, s': Mem)
    requires event.PurgeKeyEvent? || event.PurgeBaseEvent? || event.PurgeTagEvent?
    requires Step(c, owner, s, event, s')
    ensures s'.shelf.slots == s.shelf.slots - PurgedBy(s, event)
  {
    S.DropSlots(s.shelf, PurgedBy(s, event));
    hide S.Drop;
  }

  /** The tag index on disk and the tags in memory name the same keys. */
  lemma TaggedKeys(c: DiskConfig, crc: Bytes -> U32, files: map<nat, File>, m: Slots, d: Table, tag: Bytes)
    requires Agree(m, d) && Told(c, crc, files, m, d)
    ensures (set k | k in d && tag in d[k].value.tags) == KeysWithTag(m, tag) <= d.Keys
  {
    forall k | k in d
      ensures d[k].value.tags == m[k].value.tags
    {
      assert ToldAt(c, crc, files, d[k], m[k].value);
    }
  }

  // ---------------------------------------------------------------- lemmas for store

  lemma EntriesBytes(c: Config, s: Mem)
    requires Inv(c, s)
    ensures s.shelf.bytes == Weight(s.shelf.slots)
  {
  }

  lemma DropNothing<K, V>(h: S.Shelf<K, V>)
    ensures S.Drop(h, {}) == h
  {
    assert h.slots - {} == h.slots && S.Taken(h.slots, {}) == map[];
  }

  predicate OtherGuard(g: Guard, o: Guard) {
    o.base != g.base || o.generation != g.generation
  }

  /** What a thread may do with its guard while another holds the disk lock. */
  datatype Act = Drop(guard: Guard) | Finish(guard: Guard)

  /** What other threads do while `store` runs: before the record is published, and between its
      publication and the insertion into memory. */
  datatype Meanwhile = Meanwhile(early: seq<Act>, late: seq<Act>)

  predicate OnOthers(g: Guard, acts: seq<Act>) {
    forall i :: 0 <= i < |acts| ==> OtherGuard(g, acts[i].guard)
  }

  predicate Elsewhere(g: Guard, others: Meanwhile) {
    OnOthers(g, others.early) && OnOthers(g, others.late)
  }

  lemma OtherCompleted(s: Mem, g: Guard, o: Guard, done: bool, s': Mem)
    requires IsCurrent(s, g) && OtherGuard(g, o) && Completed(s, o, done, s')
    ensures IsCurrent(s', g) && s'.shelf == s.shelf
  {
  }

  /** A guard acts on its own generation only. */
  lemma OtherAbandoned(s: Mem, g: Guard, o: Guard)
    requires IsCurrent(s, g) && OtherGuard(g, o)
    ensures IsCurrent(Abandoned(s, o), g) && Abandoned(s, o).shelf == s.shelf
  {
  }

  function RoomOnDisk(c: DiskConfig, size: nat): Room {
    Room(size, c.maxDiskFiles, c.maxDiskBytes)
  }

  lemma DiskBytes<K(!new), V>(h: S.Shelf<K, V>, limits: S.Limits)
    requires S.Valid(h, limits)
    ensures h.bytes == Weight(h.slots) <= limits.maxBytes && Distinct(h.slots)
  {
  }

  lemma DisplacedResident(keys: set<CacheKey>, key: CacheKey)
    ensures Displaced(keys, key) <= keys
  {
  }

  lemma AbsentKey(keys: set<CacheKey>, key: CacheKey)
    requires Displaced(keys, key) == {}
    ensures key !in keys
  {
    assert key in keys ==> key in Displaced(keys, key);
  }

  lemma BoundedIsSized(c: Config, e: Entry)
    requires Bounded(c, e)
    ensures SizedEntry(c, e)
  {
  }

  lemma SubPut<K, V>(m: map<K, V>, k: K, v: V)
    requires k !in m
    ensures Sub(m, m[k := v])
  {
  }

  lemma PublishMoves(c: Config, owner: nat, s: Mem, g: Guard, e: Entry, delta: Option<Delta>, s': Mem)
    requires Accountable(c) && Inv(c, s) && IsCurrent(s, g) && Displaced(s.shelf.slots.Keys, e.key) == {}
    requires Step(c, owner, s, PublishEvent(g, e, delta), s')
    ensures delta.Some? && delta.value.inserted == e.key
    ensures var gone := Elements(delta.value.removed);
            && gone <= s.shelf.slots.Keys && e.key !in gone && IsPrefix(s.shelf.slots, gone)
            && S.PutOver(s.shelf.slots, s'.shelf.slots, e.key, e, e.charge, gone)
    ensures !IsCurrent(s', g)
  {
    InsertMoves(c, s.shelf, e, delta.value);
  }

  lemma InsertMoves(c: Config, h: Store, e: Entry, delta: Delta)
    requires Accountable(c) && EntriesInv(c, h) && SizedEntry(c, e)
    requires Displaced(h.slots.Keys, e.key) == {} && IsDelta(c, h.slots, e, delta)
    ensures var gone := Elements(delta.removed);
            && gone == Elements(EvictedBy(delta)) && gone <= h.slots.Keys && e.key !in gone && IsPrefix(h.slots, gone)
            && S.PutOver(h.slots, Insert(h, e, gone).slots, e.key, e, e.charge, gone)
  {
    RemovedSplits(delta);
    AbsentKey(h.slots.Keys, e.key);
    var evicted := Elements(EvictedBy(delta));
    NothingDisplaced(h.slots, Displaced(h.slots.Keys, e.key), Elements(DisplacedBy(delta)), evicted);
    hide S.Valid, S.PutOver, IsPrefix, Fits, NoShorterFits, OldestFirst, EvictedBy, DisplacedBy, Elements, Insert,
         Displaced, Labelled, OneSchema;
    InsertKeepsEntries(c, h, e, evicted);
    PrefixResident(h.slots - Displaced(h.slots.Keys, e.key), evicted, RoomFor(c, e));
  }

  lemma NothingDisplaced<K, V>(slots: map<K, V>, displaced: set<K>, listed: set<K>, evicted: set<K>)
    requires displaced == {} && listed == displaced
    ensures slots - displaced == slots && displaced + evicted == evicted == listed + evicted
  {
  }

  /** What memory evicts for a new entry are the oldest records, and the records in between are
      of one schema for each base. */
  ghost predicate Orderly(middle: Table, after: Table) {
    IsPrefix(middle, middle.Keys - after.Keys) && OneSchema(middle.Keys)
  }

  lemma SchemasOf(c: Config, s: Mem)
    requires Inv(c, s)
    ensures OneSchema(s.shelf.slots.Keys)
  {
  }

  lemma EvictedOrderly(m: Slots, d: Table, key: CacheKey, slot: Slot<RecordInfo<Bytes>>, gone: set<CacheKey>)
    requires Agree(m, d) && IsPrefix(m, gone) && OneSchema(m.Keys) && Displaced(m.Keys, key) == {}
    requires Newest(d, key, slot.stamp) && key !in d
    ensures Orderly(d[key := slot], d[key := slot] - gone)
  {
    hide OneSchema, Displaced;
    var middle := d[key := slot];
    assert middle.Keys - (middle - gone).Keys == gone && middle.Keys == m.Keys + {key};
    SchemaOneMore(m.Keys, key);
  }

  lemma SchemaOneMore(keys: set<CacheKey>, key: CacheKey)
    requires OneSchema(keys) && Displaced(keys, key) == {}
    ensures OneSchema(keys + {key})
  {
    forall k | k in keys && k.base == key.base
      ensures SameSchema(k, key) && SameSchema(key, k)
    {
      assert k !in Displaced(keys, key);
    }
  }

  lemma PrefixResident<K(!new), V>(t: map<K, Slot<V>>, dropped: set<K>, room: Room)
    requires IsShortestPrefix(t, dropped, room)
    ensures dropped <= t.Keys
  {
  }

  lemma EvictedOnly(c: DiskConfig, crc: Bytes -> U32, m: Slots, m': Slots, d: Table, files: map<nat, File>,
                    e: Entry, bytes: Bytes, slot: Slot<RecordInfo<Bytes>>, gone: set<CacheKey>)
    requires Agree(m, d) && Told(c, crc, files, m, d) && e.key !in m && gone <= m.Keys
    requires S.PutOver(m, m', e.key, e, e.charge, gone) && Newest(d, e.key, slot.stamp)
    requires slot.value.inode !in files && slot.value.tags == e.tags && slot.weight == |bytes| <= c.maxRecordBytes
    requires Bounded(c.memory, e) && Tells(crc, bytes, slot.stamp, e)
    requires IsPrefix(m, gone) && OneSchema(m.Keys) && Displaced(m.Keys, e.key) == {}
    ensures Agree(m', d[e.key := slot] - gone)
    ensures Told(c, crc, files[slot.value.inode := File(bytes, true)], m', d[e.key := slot] - gone)
    ensures e.key in m' && m'[e.key].value == e && SameOthers(m, m', e.key)
    ensures Orderly(d[e.key := slot], d[e.key := slot] - gone)
  {
    PutThere(m, m', e, gone);
    PutSameOthers(m, m', e, gone);
    SameKeys(m, d);
    hide S.PutOver, Agree, Newest, Bounded, Tells, Told, IsPrefix, OneSchema, Displaced, Orderly, SameOthers;
    EvictedOrderly(m, d, e.key, slot, gone);
    AgreePut(m, m', d, e.key, e, e.charge, gone, slot);
    NewlyTold(c, crc, files, e, bytes, slot);
    ToldPut(c, crc, files, files[slot.value.inode := File(bytes, true)], m, m', d, e.key, e, gone, slot);
  }

  lemma PutThere(m: Slots, m': Slots, e: Entry, gone: set<CacheKey>)
    requires S.PutOver(m, m', e.key, e, e.charge, gone)
    ensures e.key in m' && m'[e.key].value == e
  {
  }

  lemma NewlyTold(c: DiskConfig, crc: Bytes -> U32, files: map<nat, File>, e: Entry, bytes: Bytes,
                  slot: Slot<RecordInfo<Bytes>>)
    requires slot.value.inode !in files && slot.value.tags == e.tags && slot.weight == |bytes| <= c.maxRecordBytes
    requires Bounded(c.memory, e) && Tells(crc, bytes, slot.stamp, e)
    ensures ToldAt(c, crc, files[slot.value.inode := File(bytes, true)], slot, e)
    ensures Sub(files, files[slot.value.inode := File(bytes, true)])
  {
    hide Bounded, Tells;
  }

  /** The new record came in, within the quotas, and then some others left. */
  ghost predicate Admitted(c: DiskConfig, before: Table, middle: Table, after: Table, key: CacheKey,
                           gone: set<CacheKey>) {
    && key !in before && key in middle && middle == before[key := middle[key]]
    && |middle| <= c.maxDiskFiles && Weight(middle) <= c.maxDiskBytes
    && gone <= before.Keys && after == middle - gone
  }

  lemma AdmittedTables(c: DiskConfig, h: S.Shelf<CacheKey, RecordInfo<Bytes>>, before: Table, key: CacheKey,
                       slot: Slot<RecordInfo<Bytes>>, gone: set<CacheKey>)
    requires S.Valid(h, DiskLimits(c)) && h.slots == before[key := slot] && key !in before && gone <= before.Keys
    ensures Admitted(c, before, h.slots, h.slots - gone, key, gone)
  {
  }

  datatype StoreOutcome = Stored(evicted: nat) | GenerationLost

  datatype StoreError = OwnerMismatch | FillKeyMismatch | RecordTooLarge

  predicate Successful(r: Result<StoreOutcome, StoreError>) {
    r.Ok? && r.value.Stored?
  }

  /** From `before` to `after`: in between the table was `middle`, which is within the quotas
      and differs from `before` only by the new record and by records that left; everything
      that left is counted. */
  ghost predicate Replaced(c: DiskConfig, before: Table, middle: Table, after: Table, key: CacheKey, count: nat) {
    && key in middle && Sub(middle - {key}, before) && Sub(after, middle) && key in after
    && |middle| <= c.maxDiskFiles && Weight(middle) <= c.maxDiskBytes
    && count == |before.Keys - (middle.Keys - {key})| + |middle.Keys - after.Keys|
  }

  lemma NotCurrentAfter(s: Mem, g: Guard)
    ensures !IsCurrent(Abandoned(s, g), g) && Abandoned(s, g).shelf == s.shelf
  {
  }

  lemma SameCurrent(s: Mem, g: Guard)
    ensures forall h :: IsCurrent(s.(shelf := h), g) <==> IsCurrent(s, g)
  {
  }

  /** The victims leave room and nothing to displace. */
  lemma RoomMade(c: DiskConfig, d: Table, victims: set<CacheKey>, key: CacheKey, size: nat)
    requires var mandatory := Displaced(d.Keys, key);
             mandatory <= victims <= d.Keys && IsShortestPrefix(d - mandatory, victims - mandatory, RoomOnDisk(c, size))
    ensures Fits(d - victims, RoomOnDisk(c, size)) && Displaced((d - victims).Keys, key) == {}
    ensures key in d ==> key in victims
  {
    OthersLeft(d, Displaced(d.Keys, key), victims);
    NothingLeft(d.Keys, victims, key);
    assert (d - victims).Keys == d.Keys - victims;
  }

  lemma NothingLeft(keys: set<CacheKey>, victims: set<CacheKey>, key: CacheKey)
    requires Displaced(keys, key) <= victims
    ensures Displaced(keys - victims, key) == {}
  {
    assert Displaced(keys - victims, key) <= Displaced(keys, key);
    assert Displaced(keys - victims, key) <= keys - victims;
  }

  lemma ReplacedTables(c: DiskConfig, d: Table, victims: set<CacheKey>, middle: Table, after: Table, key: CacheKey,
                       gone: set<CacheKey>)
    requires victims <= d.Keys && (key in d ==> key in victims) && Admitted(c, d - victims, middle, after, key, gone)
    ensures Replaced(c, d, middle, after, key, |victims| + |gone|)
  {
    hide Weight;
    SwapTables(d, victims, middle[key], key, gone);
  }

  lemma ReplacedSafely(c: DiskConfig, start: seq<Dir>, first: seq<Dir>, trail: seq<Dir>, files: map<nat, File>,
                       more: map<nat, File>,
                       d: Table, d1: Table, middle: Table, after: Table, key: CacheKey, gone: set<CacheKey>)
    requires start <= first <= trail && Sub(files, more) && Admitted(c, d1, middle, after, key, gone)
    requires SafeSince(first, |start|, files, d1, d, d)
    requires SafeSince(trail, |first|, more, d1 - gone, middle, middle)
    ensures SafeSince(trail, |start|, more, after - {key}, d, middle)
  {
    hide SafeSince, Weight;
    SafeEither(first, |start|, files, d1, d, middle);
    SafeEither(trail, |first|, more, d1 - gone, d, middle);
    PutThenDrop(d1, middle[key], key, gone);
    SafeJoin(first, trail, |start|, files, more, d1, d1 - gone, after - {key}, d, middle);
  }

  /** The record of the key has this number and these bytes. */
  ghost predicate FiledAs(files: map<nat, File>, d: Table, key: CacheKey, stamp: nat, bytes: Bytes) {
    key in d && d[key].stamp == stamp && d[key].value.inode in files && files[d[key].value.inode].bytes == bytes
  }

  lemma PutSameOthers(m: Slots, m': Slots, e: Entry, gone: set<CacheKey>)
    requires S.PutOver(m, m', e.key, e, e.charge, gone)
    ensures SameOthers(m, m', e.key)
  {
  }

  /** The record just entered is complete and tells the entry. */
  ghost predicate NewRecord(c: DiskConfig, crc: Bytes -> U32, files: map<nat, File>, e: Entry, middle: Table) {
    && NamesDistinct(middle) && Distinct(middle) && e.key in middle
    && ToldAt(c, crc, files, middle[e.key], e) && FiledAt(files, middle[e.key])
  }

  lemma RecordIsNew(c: DiskConfig, crc: Bytes -> U32, dir: Dir, h: S.Shelf<CacheKey, RecordInfo<Bytes>>,
                    files: map<nat, File>, e: Entry, bytes: Bytes)
    requires Filed(dir, h.slots) && S.Valid(h, DiskLimits(c)) && e.key in h.slots
    requires var slot := h.slots[e.key];
             && slot.value.inode !in files && dir.files == files[slot.value.inode := File(bytes, true)]
             && slot.value.tags == e.tags
             && slot.weight == |bytes| <= c.maxRecordBytes && Tells(crc, bytes, slot.stamp, e)
    requires Bounded(c.memory, e)
    ensures NewRecord(c, crc, dir.files, e, h.slots)
  {
    hide Tells, Bounded, ToldAt, Weight, Lists;
    assert FiledAt(dir.files, h.slots[e.key]);
    NewlyTold(c, crc, files, e, bytes, h.slots[e.key]);
  }

  lemma LabelsIn(c: Config, s: Mem)
    requires Inv(c, s)
    ensures Labelled(s.shelf.slots)
  {
  }

  lemma StoredIsRecorded(c: DiskConfig, crc: Bytes -> U32, files: map<nat, File>, more: map<nat, File>, m: Slots,
                         d: Table, e: Entry,
                         middle: Table, after: Table, count: nat)
    requires Recorded(c, crc, files, m, d) && Sub(files, more)
    requires Replaced(c, d, middle, after, e.key, count) && NewRecord(c, crc, more, e, middle)
    ensures Recorded(c, crc, more, Shadow(m, e), middle)
  {
    hide Recorded, Sub, Weight, ToldAt, Shadow;
    RecordedMore(c, crc, files, more, m, d, e, middle);
  }
}
