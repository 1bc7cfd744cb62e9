/** The operations of the persistent cache together with every crash that may happen during
    them and the restart that follows. */
module Survival {
  import opened Prelude
  import opened Sets
  import opened Keys
  import opened Policy
  import opened Entries
  import opened Lru
  import opened Codec
  import opened Records
  import opened RecordFacts
  import opened Directory
  import opened DiskIndex
  import opened CacheModel
  import opened Lookups
  import opened Ledger
  import opened DiskWorld
  import opened Scan
  import opened Recovery
  import opened Crashes
  import opened Restart
  import opened Replay
  import R = Root
  import S = Shelf
  import D = DiskCache

  // ---------------------------------------------------------------- running caches

  /** The records of a running cache are complete and within the quotas. */
  lemma RunningRecords(c: DiskConfig, crc: Bytes -> U32, dir: Dir, s: Mem, d: S.Shelf<CacheKey, RecordInfo<Bytes>>)
    requires ValidDiskConfig(c) && Filed(dir, d.slots) && S.Valid(d, DiskLimits(c))
    requires Agree(s.shelf.slots, d.slots) && Told(c, crc, dir.files, s.shelf.slots, d.slots) && Inv(c.memory, s)
    ensures Recorded(c, crc, dir.files, s.shelf.slots, d.slots)
    ensures |d.slots| <= c.maxDiskFiles && Weight(d.slots) <= c.maxDiskBytes
    ensures Holdable(c.memory, s.shelf.slots, d.slots, d.slots.Keys)
  {
    hide Filed, S.Valid, Agree, Told, Inv, Labelled, Recorded, Weight, Running, Holdable, OneSchema;
    EntriesOf(c.memory, s);
    AllHoldable(c.memory, s.shelf.slots, d.slots);
    RunningState(c, crc, dir, s.shelf.slots, d);
    RunningLimits(c, crc, dir, s.shelf.slots, d);
    RunningIsRecorded(c, crc, dir, s.shelf.slots, d);
  }

  /** Memory can hold the entries it holds. */
  lemma AllHoldable(c: Config, m: Slots, d: Table)
    requires Agree(m, d) && Labelled(m) && OneSchema(m.Keys) && |m| <= c.maxEntries && Weight(m) <= c.maxTotalBytes
    ensures Holdable(c, m, d, d.Keys)
  {
    hide Weight, OneSchema, Fits, Agree, IsPrefix;
    D.SameKeys(m, d);
    var t := Entrants(m, d);
    assert d.Keys - d.Keys == {} && t - {} == t;
    NoPrefix(d);
    EntrantsOrder(m, d, {});
    EntrantsFit(c, t, m);
  }

  lemma NoPrefix<K(!new), V>(t: map<K, Slot<V>>)
    ensures IsPrefix(t, {})
  {
  }

  lemma EntrantsFit(c: Config, t: Slots, m: Slots)
    requires t.Keys <= m.Keys && Labelled(m) && |m| <= c.maxEntries && Weight(m) <= c.maxTotalBytes
    requires forall k :: k in t ==> t[k].weight == m[k].value.charge
    ensures Fits(t, Limit(c.maxEntries, c.maxTotalBytes))
  {
    hide Weight, Fits;
    forall k | k in t
      ensures t[k].weight == m[k].weight
    {
      assert LabelledAt(m[k], k);
    }
    WithinIsFits(m, c.maxEntries, c.maxTotalBytes);
    PartFits(t, m, c.maxEntries, c.maxTotalBytes);
  }

  /** Of the table in the middle of a store, memory can hold what it holds in the end. */
  lemma MiddleHoldable(c: DiskConfig, crc: Bytes -> U32, files: map<nat, File>, m: Slots, e: Entry, middle: Table,
                       after: Table, final: Slots)
    requires Recorded(c, crc, files, Shadow(m, e), middle) && Sub(after, middle) && D.Orderly(middle, after)
    requires Agree(final, after) && Labelled(final) && |final| <= c.memory.maxEntries
             && Weight(final) <= c.memory.maxTotalBytes
    requires SameOthers(m, final, e.key) && e.key in final && final[e.key].value == e
    ensures Holdable(c.memory, Shadow(m, e), middle, after.Keys)
  {
    hide Weight, OneSchema, Agree, Fits, Shadow, Recorded, Labelled, SameOthers;
    var shadow, gone := Shadow(m, e), middle.Keys - after.Keys;
    D.SameKeys(final, after);
    RecordedKeys(c, crc, files, shadow, middle);
    EntrantsOrder(shadow, middle, gone);
    ShadowCharges(m, e, middle, after, final);
    EntrantsFit(c.memory, Entrants(shadow, middle) - gone, final);
  }

  lemma RecordedKeys(c: DiskConfig, crc: Bytes -> U32, files: map<nat, File>, m: Slots, d: Table)
    requires Recorded(c, crc, files, m, d)
    ensures d.Keys <= m.Keys
  {
    hide ToldAt, FiledAt, NamesDistinct, Distinct;
    forall k | k in d
      ensures k in m
    {
      assert RecordedAt(c, crc, files, m, d, k);
    }
  }

  lemma EntrantsOrder(m: Slots, d: Table, gone: set<CacheKey>)
    requires d.Keys <= m.Keys && IsPrefix(d, gone)
    ensures IsPrefix(Entrants(m, d), gone) && Entrants(m, d).Keys == d.Keys
  {
  }

  lemma ShadowCharges(m: Slots, e: Entry, middle: Table, after: Table, final: Slots)
    requires final.Keys == after.Keys && SameOthers(m, final, e.key) && e.key in final && final[e.key].value == e
    ensures var t := Entrants(Shadow(m, e), middle) - (middle.Keys - after.Keys);
            t.Keys <= final.Keys && forall k :: k in t ==> t[k].weight == final[k].value.charge
  {
  }

  /** A crash between operations loses nothing: opening finds exactly the records, so that
      after a completed `store` the old version is impossible. */
  lemma RestSurvivesCrash(c: DiskConfig, crc: Bytes -> U32, dir: Dir, names: map<Name, nat>, disk: map<nat, File>,
                          s: Mem,
                          d: S.Shelf<CacheKey, RecordInfo<Bytes>>, order: seq<Name>, scan: Scan<CacheKey>, kept: Table,
                          list: seq<CacheKey>,
                          owner: nat, now: Duration, wall: WallTime, m': Slots, records: Table)
    requires Running(c, crc, dir, s.shelf.slots, d) && Inv(c.memory, s) && AfterCrash(dir, names, disk)
    ensures names == dir.durable && Recoverable(c, crc, Dir(names, [], disk))
    ensures Elements(order) == names.Keys
            && Opened(c, crc, Dir(names, [], disk), order, scan, kept, list, owner, now, wall, m', records) ==>
              && records == Survivors(d.slots)
              && (forall k :: k in m' ==> k in s.shelf.slots && SameRepresentation(m'[k].value, s.shelf.slots[k].value))
              && Continues(c, crc, dir.files, Survivors(d.slots), owner, now, wall, m')
  {
    hide Continues, Running, Inv, AfterCrash, Recoverable, Elements, Opened, SameRepresentation, Survivors, Weight,
         OneSchema, Labelled, Holding;
    StillRunning(c, crc, dir, names, disk, s.shelf.slots, d);
    RunningHolds(c, crc, Dir(names, [], disk), s.shelf.slots, d);
    HoldingIsRecoverable(c, crc, Dir(names, [], disk), d.slots);
    if Elements(order) == names.Keys
    && Opened(c, crc, Dir(names, [], disk), order, scan, kept, list, owner, now, wall, m', records) {
      EntriesOf(c.memory, s);
      OpenedSame(c, crc, Dir(names, [], disk), s.shelf.slots, d, order, scan, kept, list, owner, now, wall, m',
                 records);
      StillContinues(c, crc, dir.files, disk, d.slots, owner, now, wall, m');
    }
  }

  lemma StillContinues(c: DiskConfig, crc: Bytes -> U32, files: map<nat, File>, disk: map<nat, File>, d: Table,
                       owner: nat, now: Duration, wall: WallTime, m: Slots)
    requires Continues(c, crc, disk, Survivors(d), owner, now, wall, m)
    requires forall k :: k in d ==> SameFile(disk, files, d[k].value.inode)
    ensures Continues(c, crc, files, Survivors(d), owner, now, wall, m)
  {
    hide Moved, Encode, Bounded;
    forall k, w | k in m && k in Survivors(d) && WrittenFrom(c, crc, files, Survivors(d)[k], w)
      ensures WrittenFrom(c, crc, disk, Survivors(d)[k], w)
    {
      assert SameFile(disk, files, d[k].value.inode);
    }
  }

  lemma StillRunning(c: DiskConfig, crc: Bytes -> U32, dir: Dir, names: map<Name, nat>, disk: map<nat, File>, m: Slots,
                     d: S.Shelf<CacheKey, RecordInfo<Bytes>>)
    requires Running(c, crc, dir, m, d) && AfterCrash(dir, names, disk)
    ensures names == dir.durable && Running(c, crc, Dir(names, [], disk), m, d)
    ensures forall k :: k in d.slots ==> SameFile(disk, dir.files, d.slots[k].value.inode)
  {
    hide S.Valid, Agree, Labelled, NamesDistinct, Lists, Tells, ValidDiskConfig;
    QuietCrash(dir, names);
    forall k | k in d.slots
      ensures SameFile(disk, dir.files, d.slots[k].value.inode)
      ensures FiledAt(disk, d.slots[k]) && (k in m ==> ToldAt(c, crc, disk, d.slots[k], m[k].value))
    {
      assert FiledAt(dir.files, d.slots[k]);
    }
  }

  // ---------------------------------------------------------------- quotas

  /** The records left are some of the table's, and they keep both quotas. */
  ghost predicate LeftWithin(c: DiskConfig, names: map<Name, nat>, d: Table) {
    && (forall n :: n in names && n.Rec? ==> Owned(Left(d, names), n))
    && |Left(d, names)| <= c.maxDiskFiles && Weight(Left(d, names)) <= c.maxDiskBytes
  }

  /** Whatever a crash leaves keeps the quotas. */
  lemma CrashWithinQuota(c: DiskConfig, trail: seq<Dir>, from: nat, j: nat, names: map<Name, nat>, disk: map<nat, File>,
                         files: map<nat, File>,
                         floor: Table, before: Table, after: Table)
    requires from <= j < |trail| && AfterCrash(trail[j], names, disk)
             && SafeSince(trail, from, files, floor, before, after)
    requires |before| <= c.maxDiskFiles && Weight(before) <= c.maxDiskBytes && |after| <= c.maxDiskFiles
             && Weight(after) <= c.maxDiskBytes
    ensures LeftWithin(c, names, before) || LeftWithin(c, names, after)
  {
    hide CrashLeaves, Left, Weight, Sub, TempsApart, Owned;
    LeftWithinQuota(before, names, c.maxDiskFiles, c.maxDiskBytes);
    LeftWithinQuota(after, names, c.maxDiskFiles, c.maxDiskBytes);
    assert CrashSafe(trail[j], files, floor, before) || CrashSafe(trail[j], files, floor, after);
  }

  // ---------------------------------------------------------------- store

  /** The directory keeps the quotas and can be opened, and opening it gives one of the outcomes
      of `store`, with ages continued. */
  ghost predicate StoreRecovers(c: DiskConfig, crc: Bytes -> U32, names: map<Name, nat>, disk: map<nat, File>,
                                files: map<nat, File>,
                                before: Table, middle: Table, after: Table, m: Slots, e: Entry) {
    && (LeftWithin(c, names, before) || LeftWithin(c, names, middle))
    && Recoverable(c, crc, Dir(names, [], disk))
    && forall order, s, kept, list, owner, now, wall, m', records ::
         Elements(order) == names.Keys
         && Opened(c, crc, Dir(names, [], disk), order, s, kept, list, owner, now, wall, m', records) ==>
           CrashOutcome(before, middle, after, m, e, records, m')
           && Continues(c, crc, files, kept, owner, now, wall, m')
  }

  /** Every crash since `from` can be recovered from. */
  ghost predicate StoreSurvives(c: DiskConfig, crc: Bytes -> U32, trail: seq<Dir>, from: nat, files: map<nat, File>,
                                before: Table, middle: Table, after: Table, m: Slots, e: Entry) {
    forall j, names, disk :: from <= j < |trail| && AfterCrash(trail[j], names, disk) ==>
      StoreRecovers(c, crc, names, disk, files, before, middle, after, m, e)
  }

  lemma AllStoreCrashes(c: DiskConfig, crc: Bytes -> U32, trail: seq<Dir>, from: nat, files: map<nat, File>,
                        m: Slots, e: Entry, before: Table, middle: Table, after: Table, count: nat)
    requires ValidDiskConfig(c)
    requires SafeSince(trail, from, files, after - {e.key}, before, middle)
             && D.Replaced(c, before, middle, after, e.key, count)
    requires Recorded(c, crc, files, m, before) && Recorded(c, crc, files, Shadow(m, e), middle)
    requires |before| <= c.maxDiskFiles && Weight(before) <= c.maxDiskBytes
    requires Holdable(c.memory, m, before, before.Keys) && Holdable(c.memory, Shadow(m, e), middle, after.Keys)
    ensures StoreSurvives(c, crc, trail, from, files, before, middle, after, m, e)
  {
    hide ValidDiskConfig, SafeSince, D.Replaced, Recorded, Shadow, Weight, AfterCrash, StoreRecovers, Holdable;
    forall j, names, disk | from <= j < |trail| && AfterCrash(trail[j], names, disk)
      ensures StoreRecovers(c, crc, names, disk, files, before, middle, after, m, e)
    {
      OneStoreCrash(c, crc, trail, from, j, names, disk, files, m, e, before, middle, after, count);
    }
  }

  lemma OneStoreCrash(c: DiskConfig, crc: Bytes -> U32, trail: seq<Dir>, from: nat, j: nat, names: map<Name, nat>,
                      disk: map<nat, File>, files: map<nat, File>,
                      m: Slots, e: Entry, before: Table, middle: Table, after: Table, count: nat)
    requires ValidDiskConfig(c) && from <= j < |trail| && AfterCrash(trail[j], names, disk)
    requires SafeSince(trail, from, files, after - {e.key}, before, middle)
             && D.Replaced(c, before, middle, after, e.key, count)
    requires Recorded(c, crc, files, m, before) && Recorded(c, crc, files, Shadow(m, e), middle)
    requires |before| <= c.maxDiskFiles && Weight(before) <= c.maxDiskBytes
    requires Holdable(c.memory, m, before, before.Keys) && Holdable(c.memory, Shadow(m, e), middle, after.Keys)
    ensures StoreRecovers(c, crc, names, disk, files, before, middle, after, m, e)
  {
    hide Recorded, AfterCrash, Opened, Elements, Weight, Recoverable, SafeSince, D.Replaced, Shadow, CrashOutcome,
         ValidDiskConfig, LeftWithin, Continues, Holdable;
    MiddleFits(c, before, middle, after, e.key, count);
    CrashWithinQuota(c, trail, from, j, names, disk, files, after - {e.key}, before, middle);
    StoreSurvivesCrash(c, crc, trail, from, j, names, disk, files, m, e, before, middle, after, count, [],
                       Scan(map[], map[]), map[], [], 0, 0, 0, map[], map[]);
    forall order, s, kept, list, owner, now, wall, m', records
      | Elements(order) == names.Keys
      && Opened(c, crc, Dir(names, [], disk), order, s, kept, list, owner, now, wall, m', records)
      ensures CrashOutcome(before, middle, after, m, e, records, m')
              && Continues(c, crc, files, kept, owner, now, wall, m')
    {
      StoreSurvivesCrash(c, crc, trail, from, j, names, disk, files, m, e, before, middle, after, count, order, s, kept,
                         list, owner, now, wall, m', records);
    }
  }

  /** `DiskFillGuard::store` with all its crashes. */
  method StoreThroughCrashes(cache: D.DiskCache, g: Guard, e: Entry, now: Duration, wall: WallTime, others: D.Meanwhile)
    returns (r: Result<D.StoreOutcome, D.StoreError>, ghost middle: Table)
    requires cache.Valid() && cache.disk.index.sequence < U64_MAX && g.owner == cache.cache.identity
    requires e.owner == cache.cache.identity ==> Bounded(cache.config.memory, e)
    requires D.Elsewhere(g, others)
    modifies cache.cache, cache.cache.store, cache.cache.board, cache.disk.root, cache.disk.index
    ensures cache.Valid()
    ensures D.Successful(r) ==>
              && StoreSurvives(cache.config, cache.crc, cache.disk.root.trail, |old(cache.disk.root.trail)|,
                               cache.disk.root.dir.files,
                   old(cache.disk.index.records), middle, cache.disk.index.records, old(cache.cache.store.slots), e)
              && e.key in middle
              && WrittenFrom(cache.config, cache.crc, cache.disk.root.dir.files, middle[e.key], Writing(e, now, wall))
  {
    hide WrittenFrom, SameOthers, S.Valid, Told, Agree, Inv, Filed, Recorded, Weight, SafeSince, D.Replaced, Shadow,
         StoreSurvives, Bounded, IsCurrent, Sub, Accountable, Holdable, D.Orderly, Labelled, OneSchema;
    ghost var c, crc, s, before, files :=
      cache.config, cache.crc, cache.cache.State(), cache.disk.index.records, cache.disk.root.dir.files;
    RunningRecords(c, crc, cache.disk.root.dir, s, cache.disk.index.Shelf());
    r, middle := cache.Store(g, e, now, wall, others);
    if D.Successful(r) {
      RecordedLater(c, crc, files, cache.disk.root.dir.files, s.shelf.slots, before);
      EntriesOf(c.memory, cache.cache.State());
      ReplacedParts(c, before, middle, cache.disk.index.records, e.key, r.value.evicted);
      MiddleHoldable(c, crc, cache.disk.root.dir.files, s.shelf.slots, e, middle, cache.disk.index.records,
                     cache.cache.store.slots);
      AllStoreCrashes(c, crc, cache.disk.root.trail, |old(cache.disk.root.trail)|, cache.disk.root.dir.files,
                      s.shelf.slots, e,
                      before, middle, cache.disk.index.records, r.value.evicted);
    }
  }

  // ---------------------------------------------------------------- lookups and purges

  /** The directory keeps the quotas and can be opened, and opening it finds a part of the one
      table or of the other, with all the readable records both have and with ages continued. */
  ghost predicate ChangeRecovers(c: DiskConfig, crc: Bytes -> U32, names: map<Name, nat>, disk: map<nat, File>,
                                 files: map<nat, File>,
                                 before: Table, m: Slots, after: Table, m1: Slots) {
    && (LeftWithin(c, names, before) || LeftWithin(c, names, after))
    && Recoverable(c, crc, Dir(names, [], disk))
    && forall order, s, kept, list, owner, now, wall, m', records ::
         Elements(order) == names.Keys
         && Opened(c, crc, Dir(names, [], disk), order, s, kept, list, owner, now, wall, m', records) ==>
           ChangeOutcome(c, crc, files, before, m, after, m1, kept, owner, now, wall, m', records)
  }

  ghost predicate ChangeOutcome(c: DiskConfig, crc: Bytes -> U32, files: map<nat, File>, before: Table, m: Slots,
                                after: Table, m1: Slots,
                                kept: Table, owner: nat, now: Duration, wall: WallTime, m': Slots, records: Table) {
    && records == kept && Continues(c, crc, files, records, owner, now, wall, m')
    && (|| FoundAfterCrash(Common(before, after), before, m, records, m')
        || FoundAfterCrash(Common(before, after), after, m1, records, m'))
  }

  ghost predicate ChangeSurvives(c: DiskConfig, crc: Bytes -> U32, trail: seq<Dir>, from: nat, files: map<nat, File>,
                                 before: Table, m: Slots, after: Table, m1: Slots) {
    forall j, names, disk :: from <= j < |trail| && AfterCrash(trail[j], names, disk) ==>
      ChangeRecovers(c, crc, names, disk, files, before, m, after, m1)
  }

  lemma OneChangeCrash(c: DiskConfig, crc: Bytes -> U32, trail: seq<Dir>, from: nat, j: nat, names: map<Name, nat>,
                       disk: map<nat, File>,
                       earlier: map<nat, File>, files: map<nat, File>, before: Table, m: Slots, after: Table, m1: Slots)
    requires ValidDiskConfig(c) && from <= j < |trail| && AfterCrash(trail[j], names, disk)
    requires SafeChange(trail, from, files, before, after) && Sub(earlier, files)
    requires Recorded(c, crc, earlier, m, before) && Recorded(c, crc, files, m1, after)
    requires |before| <= c.maxDiskFiles && Weight(before) <= c.maxDiskBytes && |after| <= c.maxDiskFiles
             && Weight(after) <= c.maxDiskBytes
    requires Holdable(c.memory, m, before, before.Keys) && Holdable(c.memory, m1, after, after.Keys)
    ensures ChangeRecovers(c, crc, names, disk, files, before, m, after, m1)
  {
    hide Recorded, AfterCrash, Opened, Elements, Weight, Recoverable, SafeSince, Sub, Common, FoundAfterCrash,
         ValidDiskConfig, LeftWithin, Continues, Holdable;
    CrashWithinQuota(c, trail, from, j, names, disk, files, Common(before, after), before, after);
    ChangeSurvivesCrash(c, crc, trail, from, j, names, disk, earlier, files, m, before, m1, after, [],
                        Scan(map[], map[]), map[], [], 0, 0, 0, map[], map[]);
    forall order, s, kept, list, owner, now, wall, m', records
      | Elements(order) == names.Keys
      && Opened(c, crc, Dir(names, [], disk), order, s, kept, list, owner, now, wall, m', records)
      ensures ChangeOutcome(c, crc, files, before, m, after, m1, kept, owner, now, wall, m', records)
    {
      ChangeSurvivesCrash(c, crc, trail, from, j, names, disk, earlier, files, m, before, m1, after, order, s, kept,
                          list, owner, now, wall, m', records);
    }
  }

  lemma AllChangeCrashes(c: DiskConfig, crc: Bytes -> U32, trail: seq<Dir>, from: nat, earlier: map<nat, File>,
                         files: map<nat, File>,
                         before: Table, m: Slots, after: Table, m1: Slots)
    requires ValidDiskConfig(c) && SafeChange(trail, from, files, before, after) && Sub(earlier, files)
    requires Recorded(c, crc, earlier, m, before) && Recorded(c, crc, files, m1, after)
    requires |before| <= c.maxDiskFiles && Weight(before) <= c.maxDiskBytes && |after| <= c.maxDiskFiles
             && Weight(after) <= c.maxDiskBytes
    requires Holdable(c.memory, m, before, before.Keys) && Holdable(c.memory, m1, after, after.Keys)
    ensures ChangeSurvives(c, crc, trail, from, files, before, m, after, m1)
  {
    hide ValidDiskConfig, SafeChange, Sub, Recorded, Weight, AfterCrash, ChangeRecovers, Holdable;
    forall j, names, disk | from <= j < |trail| && AfterCrash(trail[j], names, disk)
      ensures ChangeRecovers(c, crc, names, disk, files, before, m, after, m1)
    {
      OneChangeCrash(c, crc, trail, from, j, names, disk, earlier, files, before, m, after, m1);
    }
  }

  /** `DiskCache::lookup`, which touches or expires records, with all its crashes. */
  method LookupThroughCrashes(cache: D.DiskCache, request: Request, now: Duration, later: Duration, wall: WallTime)
    returns (result: LookupResult)
    requires cache.Valid() && cache.disk.index.sequence < U64_MAX
    modifies cache.cache`stats, cache.cache.store, cache.disk.root, cache.disk.index
    ensures cache.Valid()
    ensures ChangeSurvives(cache.config, cache.crc, cache.disk.root.trail, |old(cache.disk.root.trail)|,
                           cache.disk.root.dir.files,
              old(cache.disk.index.records), old(cache.cache.store.slots), cache.disk.index.records,
              cache.cache.store.slots)
    ensures Renewed(cache.config, cache.crc, cache.disk.root.dir.files, later, wall, D.TouchedBy(result),
              old(cache.disk.index.records), old(cache.cache.store.slots), cache.disk.index.records,
              cache.cache.store.slots)
  {
    hide Renewed, WrittenFrom, S.Valid, Told, Agree, Inv, Filed, Recorded, Weight, SafeChange, ChangeSurvives, Sub,
         Accountable, Step, Matching, Evaluate, Holdable;
    ghost var c, crc, s, before, files :=
      cache.config, cache.crc, cache.cache.State(), cache.disk.index.records, cache.disk.root.dir.files;
    RunningRecords(c, crc, cache.disk.root.dir, s, cache.disk.index.Shelf());
    ghost var found;
    found, result := cache.Lookup(request, now, later, wall);
    RunningRecords(c, crc, cache.disk.root.dir, cache.cache.State(), cache.disk.index.Shelf());
    AllChangeCrashes(c, crc, cache.disk.root.trail, |old(cache.disk.root.trail)|, files, cache.disk.root.dir.files,
                     before, s.shelf.slots, cache.disk.index.records, cache.cache.store.slots);
  }

  /** `DiskCache::purge_tag` with all its crashes. */
  method PurgeTagThroughCrashes(cache: D.DiskCache, tag: Bytes) returns (result: Option<PurgeResult>)
    requires cache.Valid()
    modifies cache.cache, cache.cache.store, cache.cache.board, cache.disk.root, cache.disk.index
    ensures cache.Valid()
    ensures ChangeSurvives(cache.config, cache.crc, cache.disk.root.trail, |old(cache.disk.root.trail)|,
                           cache.disk.root.dir.files,
              old(cache.disk.index.records), old(cache.cache.store.slots), cache.disk.index.records,
              cache.cache.store.slots)
  {
    hide S.Valid, Told, Agree, Inv, Filed, Recorded, Weight, SafeChange, ChangeSurvives, Sub, Accountable, Step,
         KeysWithTag, ValidTag, Holdable;
    ghost var c, crc, s, before, files :=
      cache.config, cache.crc, cache.cache.State(), cache.disk.index.records, cache.disk.root.dir.files;
    RunningRecords(c, crc, cache.disk.root.dir, s, cache.disk.index.Shelf());
    result := cache.PurgeTag(tag);
    RunningRecords(c, crc, cache.disk.root.dir, cache.cache.State(), cache.disk.index.Shelf());
    AllChangeCrashes(c, crc, cache.disk.root.trail, |old(cache.disk.root.trail)|, files, cache.disk.root.dir.files,
                     before, s.shelf.slots, cache.disk.index.records, cache.cache.store.slots);
  }

  // ---------------------------------------------------------------- opening

  /** Files under names that were there before are still the same. */
  lemma SameAfterCrash(c: DiskConfig, crc: Bytes -> U32, before: Dir, d: Dir, names: map<Name, nat>,
                       disk: map<nat, File>, n: Name)
    requires Recoverable(c, crc, before) && d.files == before.files && AfterCrash(d, names, disk)
             && Sub(names, before.durable) && n in names
    ensures SameFile(disk, before.files, names[n]) && Genuine(c, crc, disk, n, names[n])
    ensures MarksOf(c, crc, disk).Keys * {names[n]} == MarksOf(c, crc, before.files).Keys * {names[n]}
    ensures names[n] in MarksOf(c, crc, disk) ==>
              MarksOf(c, crc, disk)[names[n]] == MarksOf(c, crc, before.files)[names[n]]
  {
    hide ImageAt, WrittenAs, Unshared, CrashLeaves;
    assert Genuine(c, crc, before.files, n, before.durable[n]);
  }

  /** A crash that only lost some names leaves a directory that can be opened. */
  lemma FewerNamesRecoverable(c: DiskConfig, crc: Bytes -> U32, before: Dir, d: Dir, names: map<Name, nat>,
                              disk: map<nat, File>)
    requires Recoverable(c, crc, before) && d.files == before.files && AfterCrash(d, names, disk)
             && Sub(names, before.durable)
    ensures Recoverable(c, crc, Dir(names, [], disk))
  {
    hide ImageAt, Genuine, MarksOf, AfterCrash, SameFile;
    forall n | n in names
      ensures Genuine(c, crc, disk, n, names[n])
      ensures names[n] in MarksOf(c, crc, disk) ==>
                names[n] in MarksOf(c, crc, before.files)
                && MarksOf(c, crc, disk)[names[n]] == MarksOf(c, crc, before.files)[names[n]]
    {
      SameAfterCrash(c, crc, before, d, names, disk, n);
      assert names[n] in MarksOf(c, crc, disk) ==> names[n] in MarksOf(c, crc, disk).Keys * {names[n]};
    }
    assert Unshared(before.durable, MarksOf(c, crc, before.files));
  }

  /** The record can be read and is the one of its key and number. */
  ghost predicate Legible(c: DiskConfig, crc: Bytes -> U32, files: map<nat, File>, names: map<Name, nat>,
                          slot: Slot<RecordInfo<Bytes>>, k: CacheKey) {
    && slot.value.name.Rec? && Listed(names, slot.value) && slot.value.inode in MarksOf(c, crc, files)
    && MarksOf(c, crc, files)[slot.value.inode] == Mark(k, slot.stamp)
  }

  /** Opening again after a crash in the middle of opening, in whatever order the directory is
      read. Whether a record the first opening ended with, or a newer one of its key, is there
      again is decided by the scan, the quotas and the limits of memory. All names of the records
      are still there, so the scan finds it if all other names of its file come earlier; but the
      crash may have brought back a temporary name of its file, and newer records of other keys. */
  ghost predicate OpenRecovers(c: DiskConfig, crc: Bytes -> U32, names: map<Name, nat>, disk: map<nat, File>,
                               records: Table) {
    && Recoverable(c, crc, Dir(names, [], disk))
    && (forall k :: k in records ==> records[k].value.name in names)
    && forall order, s, kept, list, owner, now, wall, m', records', k ::
         Elements(order) == names.Keys && k in records
         && Opened(c, crc, Dir(names, [], disk), order, s, kept, list, owner, now, wall, m', records') ==>
           && Decided(c, crc, Dir(names, [], disk), order, s, kept, owner, now, wall, records', k, records[k].stamp)
           && FoundAgain(c, crc, names, disk, order, records', records[k], k)
  }

  ghost predicate FoundAgain(c: DiskConfig, crc: Bytes -> U32, names: map<Name, nat>, disk: map<nat, File>,
                             order: seq<Name>, records': Table, slot: Slot<RecordInfo<Bytes>>, k: CacheKey)
    requires slot.value.name in names
  {
    if ComesLast(names, order, slot.value.name) then Shows(names, MarksOf(c, crc, disk), order, k, slot.stamp)
    else k in records' ==> records'[k].value.name != slot.value.name
  }

  lemma LastNameStays(c: DiskConfig, crc: Bytes -> U32, names: map<Name, nat>, disk: map<nat, File>,
                      slot: Slot<RecordInfo<Bytes>>, k: CacheKey, order: seq<Name>, s: Scan<CacheKey>, kept: Table,
                      list: seq<CacheKey>, owner: nat, now: Duration, wall: WallTime, m': Slots, records': Table)
    requires Elements(order) == names.Keys && Legible(c, crc, disk, names, slot, k)
    requires Opened(c, crc, Dir(names, [], disk), order, s, kept, list, owner, now, wall, m', records')
    ensures slot.value.name in names && FoundAgain(c, crc, names, disk, order, records', slot, k)
  {
    hide MarksOf, IsFound, Before, Goal, Revived, Replayed, IsShortestPrefix, OldestFirst, ImageAt, Elements;
    var n := slot.value.name;
    if ComesLast(names, order, n) {
      assert Admissible(names, MarksOf(c, crc, disk), order, n);
    } else if k in records' {
      assert k in TableOf(c, crc, disk, s.found);
      assert FoundAt(names, MarksOf(c, crc, disk), order, s, k);
    }
  }

  /** A record can be lost although nothing else has its name: with the older record of one key
      and the newer one of another, read before a temporary name of its file, the first opening
      ends with the older record alone. A crash that loses only the unlink of the newer one brings
      it back, and with room for one record the second opening drops the older one. */
  lemma NewerComesBack<K(!new), V>(a: K, b: K, v: V, w: V, sizeA: nat, sizeB: nat, maxBytes: nat,
                                   files: map<nat, File>)
    requires a != b && sizeB <= maxBytes
    ensures VisitAll(BothMarks(a, b), Scan(WithTemporary(), map[]), [Rec(2, 2), Temp(3), Rec(1, 1)])
            == Scan(map[Rec(1, 1) := 5], map[a := Kept(Rec(1, 1), 5, 1)])
    ensures CrashLeaves(Dir(WithTemporary(), [Unlink(Rec(2, 2)), Unlink(Temp(3))], files), BothRecords())
    ensures SoleName(BothRecords(), Rec(1, 1))
    ensures VisitAll(BothMarks(a, b), Scan(BothRecords(), map[]), [Rec(1, 1), Rec(2, 2)]).found
            == map[a := Kept(Rec(1, 1), 5, 1), b := Kept(Rec(2, 2), 6, 2)]
    ensures IsShortestPrefix(map[a := Slot(v, 1, sizeA), b := Slot(w, 2, sizeB)], {a}, Limit(1, maxBytes))
  {
    hide VisitAll, IsShortestPrefix, CrashLeaves;
    FirstPass(a, b);
    UnlinkIsLost(files);
    SecondPass(a, b);
    OlderIsCut(a, b, v, w, sizeA, sizeB, maxBytes);
  }

  function BothRecords(): map<Name, nat> {
    map[Rec(1, 1) := 5, Rec(2, 2) := 6]
  }

  function WithTemporary(): map<Name, nat> {
    BothRecords()[Temp(3) := 6]
  }

  function BothMarks<K>(a: K, b: K): map<nat, Mark<K>> {
    map[5 := Mark(a, 1), 6 := Mark(b, 2)]
  }

  lemma UnlinkIsLost(files: map<nat, File>)
    ensures CrashLeaves(Dir(WithTemporary(), [Unlink(Rec(2, 2)), Unlink(Temp(3))], files), BothRecords())
  {
    var ops := [Unlink(Rec(2, 2)), Unlink(Temp(3))];
    assert ops[1..] == [Unlink(Temp(3))] && ops[1..][1..] == [];
    assert Apply(WithTemporary(), Unlink(Temp(3))) == BothRecords();
    assert Leaves(BothRecords(), [], BothRecords());
    assert Leaves(WithTemporary(), ops[1..], BothRecords());
  }

  lemma FirstPass<K(!new)>(a: K, b: K)
    requires a != b
    ensures VisitAll(BothMarks(a, b), Scan(WithTemporary(), map[]), [Rec(2, 2), Temp(3), Rec(1, 1)])
            == Scan(map[Rec(1, 1) := 5], map[a := Kept(Rec(1, 1), 5, 1)])
  {
    var names, marks := WithTemporary(), BothMarks(a, b);
    var order := [Rec(2, 2), Temp(3), Rec(1, 1)];
    var start := Scan(names, map[]);
    assert order[..2] == [Rec(2, 2), Temp(3)] && order[..2][..1] == [Rec(2, 2)] && order[..2][..1][..0] == [];
    assert Temp(3) in names && !SoleName(names, Rec(2, 2));
    var once := Without(start, Rec(2, 2));
    assert VisitAll(marks, start, order[..2][..1]) == once;
    var twice := Without(once, Temp(3));
    assert VisitAll(marks, start, order[..2]) == twice;
    assert twice.names == map[Rec(1, 1) := 5] && SoleName(twice.names, Rec(1, 1));
    assert VisitAll(marks, start, order) == Visit(marks, twice, Rec(1, 1));
  }

  lemma SecondPass<K(!new)>(a: K, b: K)
    requires a != b
    ensures VisitAll(BothMarks(a, b), Scan(BothRecords(), map[]), [Rec(1, 1), Rec(2, 2)]).found
            == map[a := Kept(Rec(1, 1), 5, 1), b := Kept(Rec(2, 2), 6, 2)]
  {
    var left, marks := BothRecords(), BothMarks(a, b);
    var order, start := [Rec(1, 1), Rec(2, 2)], Scan(left, map[]);
    assert order[..1] == [Rec(1, 1)] && order[..1][..0] == [];
    assert SoleName(left, Rec(1, 1)) && SoleName(left, Rec(2, 2));
    var once := Visit(marks, start, Rec(1, 1));
    assert VisitAll(marks, start, order[..1]) == once;
    assert VisitAll(marks, start, order) == Visit(marks, once, Rec(2, 2));
  }

  lemma OlderIsCut<K(!new), V>(a: K, b: K, v: V, w: V, sizeA: nat, sizeB: nat, maxBytes: nat)
    requires a != b && sizeB <= maxBytes
    ensures IsShortestPrefix(map[a := Slot(v, 1, sizeA), b := Slot(w, 2, sizeB)], {a}, Limit(1, maxBytes))
  {
    var t := map[a := Slot(v, 1, sizeA), b := Slot(w, 2, sizeB)];
    var none: map<K, Slot<V>> := map[];
    assert t - {a} == none[b := Slot(w, 2, sizeB)];
    WeightInsert(none, b, Slot(w, 2, sizeB));
    assert |t| == |t.Keys| && t.Keys == {a, b};
    forall shorter: set<K> | IsPrefix(t, shorter) && shorter < {a}
      ensures !Fits(t - shorter, Limit(1, maxBytes))
    {
      assert shorter == {} && t - {} == t;
    }
  }

  ghost predicate OpenSurvives(c: DiskConfig, crc: Bytes -> U32, trail: seq<Dir>, from: nat, records: Table) {
    forall j, names, disk :: from <= j < |trail| && AfterCrash(trail[j], names, disk) ==>
      OpenRecovers(c, crc, names, disk, records)
  }

  lemma OneOpenCrash(c: DiskConfig, crc: Bytes -> U32, before: Dir, trail: seq<Dir>, from: nat, j: nat,
                     names: map<Name, nat>, disk: map<nat, File>,
                     final: Dir, records: Table)
    requires Recoverable(c, crc, before) && from <= j < |trail| && AfterCrash(trail[j], names, disk)
    requires Shrinking(trail, from, before.files, final.durable, before.durable)
    requires forall k :: k in records ==> Legible(c, crc, before.files, final.durable, records[k], k)
    ensures OpenRecovers(c, crc, names, disk, records)
  {
    hide Recoverable, AfterCrash, Opened, Decided, FoundAgain, Elements, Between, Sub, Legible;
    CrashNames(trail[j], names, disk, final.durable, before.durable);
    FewerNamesRecoverable(c, crc, before, trail[j], names, disk);
    forall k | k in records
      ensures Legible(c, crc, disk, names, records[k], k) && records[k].value.name in names
    {
      LegibleAfterCrash(c, crc, before, trail[j], names, disk, final.durable, records[k], k);
      LegibleListed(c, crc, disk, names, records[k], k);
    }
    forall order, s, kept, list, owner, now, wall, m', records', k
      | Elements(order) == names.Keys && k in records
      && Opened(c, crc, Dir(names, [], disk), order, s, kept, list, owner, now, wall, m', records')
      ensures Decided(c, crc, Dir(names, [], disk), order, s, kept, owner, now, wall, records', k, records[k].stamp)
              && FoundAgain(c, crc, names, disk, order, records', records[k], k)
    {
      OpenedDecides(c, crc, Dir(names, [], disk), order, s, kept, list, owner, now, wall, m', records', k,
                    records[k].stamp);
      LastNameStays(c, crc, names, disk, records[k], k, order, s, kept, list, owner, now, wall, m', records');
    }
  }

  lemma LegibleListed(c: DiskConfig, crc: Bytes -> U32, files: map<nat, File>, names: map<Name, nat>,
                      slot: Slot<RecordInfo<Bytes>>, k: CacheKey)
    requires Legible(c, crc, files, names, slot, k)
    ensures slot.value.name in names
  {
    hide MarksOf;
  }

  lemma CrashNames(d: Dir, names: map<Name, nat>, disk: map<nat, File>, lo: map<Name, nat>, hi: map<Name, nat>)
    requires AfterCrash(d, names, disk) && Between(d, lo, hi)
    ensures Sub(lo, names) && Sub(names, hi)
  {
    hide CrashLeaves, Between, Sub;
    CrashBetween(d, lo, hi, names);
  }

  lemma LegibleAfterCrash(c: DiskConfig, crc: Bytes -> U32, before: Dir, d: Dir, names: map<Name, nat>,
                          disk: map<nat, File>, lo: map<Name, nat>,
                          slot: Slot<RecordInfo<Bytes>>, k: CacheKey)
    requires Recoverable(c, crc, before) && d.files == before.files && AfterCrash(d, names, disk) && Sub(lo, names)
             && Sub(names, before.durable)
    requires Legible(c, crc, before.files, lo, slot, k)
    ensures Legible(c, crc, disk, names, slot, k)
  {
    hide Recoverable, AfterCrash, MarksOf, SameFile, Genuine;
    var n := slot.value.name;
    SameAfterCrash(c, crc, before, d, names, disk, n);
    assert names[n] in MarksOf(c, crc, before.files).Keys * {names[n]};
  }

  /** What opening ends with can be read. */
  lemma OpenedLegible(c: DiskConfig, crc: Bytes -> U32, before: Dir, order: seq<Name>, s: Scan<CacheKey>, kept: Table,
                      list: seq<CacheKey>,
                      owner: nat, now: Duration, wall: WallTime, m: Slots, records: Table, final: Dir, k: CacheKey)
    requires Recoverable(c, crc, before) && Elements(order) == before.durable.Keys && k in records
    requires Opened(c, crc, before, order, s, kept, list, owner, now, wall, m, records)
    requires Filed(final, records) && final.files == before.files
    ensures Legible(c, crc, before.files, final.durable, records[k], k)
  {
    hide Recoverable, Elements, Scanned, Goal, Revived, Replayed, IsShortestPrefix, OldestFirst, Weight, TableOf,
         ImageAt, NamesDistinct, Encode;
    FoundTable(c, crc, before, order, s);
    assert Sub(records, kept) && Sub(kept, TableOf(c, crc, before.files, s.found));
    assert RevivableAt(c, crc, before.files, records[k], k) && Listed(final.durable, records[k].value)
           && FiledAt(final.files, records[k]);
  }

  /** `DiskCache::with_clock` with all its crashes. */
  method OpenThroughCrashes(root: R.Root, c: DiskConfig, crc: Bytes -> U32, owner: nat, order: seq<Name>, now: Duration,
                            wall: WallTime)
    returns (cache: D.DiskCache)
    requires ValidDiskConfig(c) && root.Valid() && Recoverable(c, crc, root.dir)
    requires NoRepeats(order) && Elements(order) == root.dir.durable.Keys
    modifies root
    ensures cache.Valid() && cache.disk.root == root
    ensures OpenSurvives(c, crc, root.trail, |old(root.trail)|, cache.disk.index.records)
  {
    hide S.Valid, Told, Agree, Inv, Filed, Recoverable, Opened, Elements, NoRepeats, Shrinking, OpenRecovers,
         AfterCrash, Legible, R.UsedBelow, Accountable;
    ghost var before := root.dir;
    ghost var s, kept, list;
    cache, s, kept, list := Open(root, c, crc, owner, order, now, wall);
    forall k | k in cache.disk.index.records
      ensures Legible(c, crc, before.files, root.dir.durable, cache.disk.index.records[k], k)
    {
      OpenedLegible(c, crc, before, order, s, kept, list, owner, now, wall, cache.cache.store.slots,
                    cache.disk.index.records, root.dir, k);
    }
    forall j, names, disk | |old(root.trail)| <= j < |root.trail| && AfterCrash(root.trail[j], names, disk)
      ensures OpenRecovers(c, crc, names, disk, cache.disk.index.records)
    {
      OneOpenCrash(c, crc, before, root.trail, |old(root.trail)|, j, names, disk, root.dir, cache.disk.index.records);
    }
  }
}
