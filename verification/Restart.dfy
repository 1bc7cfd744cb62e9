/** Closing and reopening the persistent cache: nothing is lost and nothing changes, except
    that entries with an empty authority do not come back. */
module Restart {
  import opened Prelude
  import opened Sets
  import opened Keys
  import opened Policy
  import opened Entries
  import opened Lru
  import opened Codec
  import opened Records
  import opened RecordFacts
  import opened Directory
  import opened DiskIndex
  import opened CacheModel
  import opened Ledger
  import opened DiskWorld
  import opened Scan
  import opened Rebuild
  import opened Replay
  import opened Recovery
  import opened Crashes
  import D = DiskCache
  import R = Root
  import S = Shelf

  /** What reading a record written for an entry gives: its image, exactly when the entry's
      authority is not empty. */
  lemma RecordReads(c: DiskConfig, crc: Bytes -> U32, bytes: Bytes, stamp: nat, e: Entry)
    requires ValidDiskConfig(c) && Tells(crc, bytes, stamp, e) && Bounded(c.memory, e) && |bytes| <= c.maxRecordBytes
    ensures if e.key.base.authority != []
            then ImageAt(c, crc, bytes).Some? && IsImageOf(crc, bytes, stamp, ImageAt(c, crc, bytes).value, e)
            else ImageAt(c, crc, bytes) == None
  {
    hide Encode, Decode, Encodable, Rebuilds, Represents, BoundedImage, Bounded, PutImage, CanonicalBase;
    var i :| IsImageOf(crc, bytes, stamp, i, e);
    ImageBounded(c.memory, i, e);
    EncodedLength(crc, i, bytes);
    RebuildsIffAuthority(c.memory, e.key.base);
    if e.key.base.authority != [] {
      RoundTrip(c.memory, crc, i);
    } else {
      LostRecord(c.memory, crc, i);
    }
  }

  lemma ImageBounded(c: Config, i: Image, e: Entry)
    requires Represents(i, e) && Bounded(c, e)
    ensures BoundedImage(c, i) && i.key == e.key && CanonicalBase(c, e.key.base)
  {
    hide BoundedHeaders, ProperHeaders, BoundedTags, BoundedValidator, Charge, CanonicalBase, BoundedVary;
  }

  lemma EncodedLength(crc: Bytes -> U32, i: Image, bytes: Bytes)
    requires Encode(crc, i) == Some(bytes) && |bytes| <= U64_MAX
    ensures Encodable(i) && |PutImage(i)| <= U64_MAX
  {
    hide PutImage, Encodable;
  }

  /** What the directory of a running cache holds under one name. */
  lemma NameReads(c: DiskConfig, crc: Bytes -> U32, files: map<nat, File>, m: Slots, d: Table, k: CacheKey)
    requires ValidDiskConfig(c) && AllFiled(files, d) && Told(c, crc, files, m, d) && k in d && k in m
             && m[k].value.key == k
    ensures var slot := d[k];
            && slot.value.inode in files
            && (Readable(c, crc, files, slot.value.inode) <==> k.base.authority != [])
            && (k.base.authority != [] ==>
                  && RevivableAt(c, crc, files, slot, k)
                  && Represents(ImageAt(c, crc, files[slot.value.inode].bytes).value, m[k].value))
  {
    assert FiledAt(files, d[k]) && ToldAt(c, crc, files, d[k], m[k].value);
    hide ImageAt, Encode, Bounded, Tells;
    RecordReads(c, crc, files[d[k].value.inode].bytes, d[k].stamp, m[k].value);
  }

  /** A readable record gives back exactly what was encoded, the age and the wall-clock time
      included. */
  lemma ExactReads(c: DiskConfig, crc: Bytes -> U32, files: map<nat, File>, slot: Slot<RecordInfo<Bytes>>, w: Writing)
    requires ValidDiskConfig(c) && WrittenFrom(c, crc, files, slot, w) && Readable(c, crc, files, slot.value.inode)
    ensures ImageAt(c, crc, files[slot.value.inode].bytes) ==
              Some(ToImage(w.entry, slot.stamp, slot.stamp, w.at, w.wall))
  {
    hide Encode, Decode, Encodable, Rebuilds, Represents, BoundedImage, Bounded, PutImage, CanonicalBase;
    var bytes, i := files[slot.value.inode].bytes, ToImage(w.entry, slot.stamp, slot.stamp, w.at, w.wall);
    FirstEncoding(crc, w.entry, slot.stamp, w.at, w.wall);
    RecordReads(c, crc, bytes, slot.stamp, w.entry);
    EntryImageBounded(c.memory, w.entry, slot.stamp, slot.stamp, w.at, w.wall);
    EncodedLength(crc, i, bytes);
    BoundedBase(c.memory, w.entry);
    RebuildsIffAuthority(c.memory, w.entry.key.base);
    RoundTrip(c.memory, crc, i);
  }

  lemma BoundedBase(c: Config, e: Entry)
    requires Bounded(c, e)
    ensures CanonicalBase(c, e.key.base)
  {
    hide BoundedHeaders, ProperHeaders, BoundedTags, BoundedValidator, Charge, CanonicalBase, BoundedVary;
  }

  /** Entries are what their records were written from, older by the time on disk: the age at
      the moment of writing plus the wall-clock time since. */
  ghost predicate Continues(c: DiskConfig, crc: Bytes -> U32, files: map<nat, File>, kept: Table, owner: nat,
                            now: Duration, wall: WallTime, m: Slots) {
    forall k, w :: k in m && k in kept && WrittenFrom(c, crc, files, kept[k], w) ==>
      m[k].value == Moved(w.entry, owner, w.at, w.wall, now, wall)
  }

  lemma GoalContinues(c: DiskConfig, crc: Bytes -> U32, files: map<nat, File>, kept: Table, owner: nat, now: Duration,
                      wall: WallTime, m: Slots)
    requires ValidDiskConfig(c) && Revived(Goal(c, crc, files, kept, owner, now, wall), m)
    ensures Continues(c, crc, files, kept, owner, now, wall, m)
  {
    hide WrittenFrom, ImageAt, ValidDiskConfig, AgeAt;
    forall k, w | k in m && k in kept && WrittenFrom(c, crc, files, kept[k], w)
      ensures m[k].value == Moved(w.entry, owner, w.at, w.wall, now, wall)
    {
      ExactReads(c, crc, files, kept[k], w);
    }
  }

  // ---------------------------------------------------------------- directories of a known table

  ghost predicate RevivesIfRead(c: DiskConfig, crc: Bytes -> U32, files: map<nat, File>, slot: Slot<RecordInfo<Bytes>>,
                                k: CacheKey) {
    slot.value.name.Rec? && slot.value.name.sequence == slot.stamp
    && (Readable(c, crc, files, slot.value.inode) ==> RevivableAt(c, crc, files, slot, k))
  }

  /** The directory holds the records of the table, complete, and perhaps temporary names. */
  ghost predicate Holding(c: DiskConfig, crc: Bytes -> U32, dir: Dir, d: Table) {
    && dir.pending == []
    && (forall n :: n in dir.durable ==> dir.durable[n] in dir.files && dir.files[dir.durable[n]].synced)
    && (forall k :: k in d ==> RevivesIfRead(c, crc, dir.files, d[k], k))
    && Holds(dir.durable, MarksOf(c, crc, dir.files), d)
  }

  lemma MarkOf(c: DiskConfig, crc: Bytes -> U32, files: map<nat, File>, d: Table, k: CacheKey)
    requires k in d && RevivesIfRead(c, crc, files, d[k], k)
    ensures MarkedAt(MarksOf(c, crc, files), d, k)
    ensures d[k].value.inode in MarksOf(c, crc, files) <==> Readable(c, crc, files, d[k].value.inode)
  {
    hide ImageAt, Encode;
  }

  lemma HoldingIsRecoverable(c: DiskConfig, crc: Bytes -> U32, dir: Dir, d: Table)
    requires Holding(c, crc, dir, d)
    ensures Recoverable(c, crc, dir)
  {
    hide MarksOf, RevivesIfRead, ImageAt, Unshared, WrittenAs;
    HoldsUnshared(dir.durable, MarksOf(c, crc, dir.files), d);
    forall n | n in dir.durable
      ensures Genuine(c, crc, dir.files, n, dir.durable[n])
    {
      if n.Rec? {
        var k := OwnerOf(dir.durable, MarksOf(c, crc, dir.files), d, n);
        OwnedGenuine(c, crc, dir.files, d[k], k);
      }
    }
  }

  lemma OwnedGenuine(c: DiskConfig, crc: Bytes -> U32, files: map<nat, File>, slot: Slot<RecordInfo<Bytes>>,
                     k: CacheKey)
    requires RevivesIfRead(c, crc, files, slot, k) && slot.value.inode in files && files[slot.value.inode].synced
    ensures Genuine(c, crc, files, slot.value.name, slot.value.inode)
  {
    hide ImageAt, Encode;
  }

  /** Whatever is recovered from such a directory is in the table; readable records with no
      second name are recovered. */
  lemma HoldingTable(c: DiskConfig, crc: Bytes -> U32, dir: Dir, d: Table, order: seq<Name>, s: Scan<CacheKey>)
    requires Holding(c, crc, dir, d) && Scanned(dir.durable, MarksOf(c, crc, dir.files), order, order, s)
             && Elements(order) == dir.durable.Keys
    ensures Sub(TableOf(c, crc, dir.files, s.found), d)
    ensures forall k :: k in d && d[k].value.name in dir.durable && SoleName(dir.durable, d[k].value.name)
                        && Readable(c, crc, dir.files, d[k].value.inode) ==>
              k in TableOf(c, crc, dir.files, s.found)
  {
    hide MarksOf, RevivesIfRead, ImageAt, Scanned, Holds, Encode;
    var t := TableOf(c, crc, dir.files, s.found);
    forall k | k in t
      ensures k in d && t[k] == d[k]
    {
      HoldsFound(dir.durable, MarksOf(c, crc, dir.files), d, order, s, k);
      SameSlot(c, crc, dir.files, s.found[k], d[k], k);
    }
    forall k | k in d && d[k].value.name in dir.durable && SoleName(dir.durable, d[k].value.name)
    && Readable(c, crc, dir.files, d[k].value.inode)
      ensures k in t
    {
      MarkOf(c, crc, dir.files, d, k);
      SoleIsFound(dir.durable, MarksOf(c, crc, dir.files), d, order, s, k);
      HoldsFound(dir.durable, MarksOf(c, crc, dir.files), d, order, s, k);
    }
  }

  lemma SameSlot(c: DiskConfig, crc: Bytes -> U32, files: map<nat, File>, kept: Kept, slot: Slot<RecordInfo<Bytes>>,
                 k: CacheKey)
    requires Readable(c, crc, files, kept.inode) && EntersAs(kept, slot) && RevivesIfRead(c, crc, files, slot, k)
    ensures SlotOf(c, crc, files, kept) == slot
  {
    hide ImageAt, Encode;
  }

  // ---------------------------------------------------------------- restart

  ghost predicate Running(c: DiskConfig, crc: Bytes -> U32, dir: Dir, m: Slots,
                          d: S.Shelf<CacheKey, RecordInfo<Bytes>>) {
    && ValidDiskConfig(c) && Filed(dir, d.slots) && S.Valid(d, DiskLimits(c))
    && Agree(m, d.slots) && Told(c, crc, dir.files, m, d.slots) && Labelled(m)
  }

  /** The entries that come back. */
  function Survivors<V>(d: map<CacheKey, V>): map<CacheKey, V> {
    map k | k in d && k.base.authority != [] :: d[k]
  }

  ghost predicate ReadsAs(c: DiskConfig, crc: Bytes -> U32, files: map<nat, File>, slot: Slot<RecordInfo<Bytes>>,
                          e: Entry) {
    && (Readable(c, crc, files, slot.value.inode) <==> e.key.base.authority != [])
    && (e.key.base.authority != [] ==> Represents(ImageAt(c, crc, files[slot.value.inode].bytes).value, e))
  }

  lemma RunningRecord(c: DiskConfig, crc: Bytes -> U32, dir: Dir, m: Slots, d: S.Shelf<CacheKey, RecordInfo<Bytes>>,
                      k: CacheKey)
    requires Running(c, crc, dir, m, d) && k in d.slots
    ensures k in m && m[k].value.key == k && RevivesIfRead(c, crc, dir.files, d.slots[k], k)
            && ReadsAs(c, crc, dir.files, d.slots[k], m[k].value)
    ensures Listed(dir.durable, d.slots[k].value) && SoleName(dir.durable, d.slots[k].value.name)
  {
    hide ToldAt, S.Valid, RevivableAt, ImageAt, Represents;
    assert FiledAt(dir.files, d.slots[k]) && LabelledAt(m[k], k);
    NameReads(c, crc, dir.files, m, d.slots, k);
    OnlyName(dir.durable, d.slots, k);
  }

  lemma OnlyName<K(!new), G>(names: map<Name, nat>, d: map<K, Slot<RecordInfo<G>>>, k: K)
    requires NamesDistinct(d) && Lists(names, d) && k in d
    ensures Listed(names, d[k].value) && SoleName(names, d[k].value.name)
  {
    assert Listed(names, d[k].value);
    forall n | n in names && names[n] == d[k].value.inode
      ensures n == d[k].value.name
    {
      assert Owned(d, n);
      var j :| j in d && d[j].value.name == n;
      assert Listed(names, d[j].value);
    }
  }

  lemma RunningHolds(c: DiskConfig, crc: Bytes -> U32, dir: Dir, m: Slots, d: S.Shelf<CacheKey, RecordInfo<Bytes>>)
    requires Running(c, crc, dir, m, d)
    ensures Holding(c, crc, dir, d.slots)
  {
    hide Running, RevivesIfRead, MarksOf, MarkedAt, ReadsAs, Listed, NamesDistinct, Distinct, Owned;
    RunningFiles(c, crc, dir, m, d);
    forall k | k in d.slots
      ensures RevivesIfRead(c, crc, dir.files, d.slots[k], k) && MarkedAt(MarksOf(c, crc, dir.files), d.slots, k)
              && Listed(dir.durable, d.slots[k].value)
    {
      RunningRecord(c, crc, dir, m, d, k);
      MarkOf(c, crc, dir.files, d.slots, k);
    }
  }

  lemma RunningFiles(c: DiskConfig, crc: Bytes -> U32, dir: Dir, m: Slots, d: S.Shelf<CacheKey, RecordInfo<Bytes>>)
    requires Running(c, crc, dir, m, d)
    ensures dir.pending == [] && NamesDistinct(d.slots) && Distinct(d.slots) && forall n :: n in dir.durable ==>
              Owned(d.slots, n)
    ensures forall n :: n in dir.durable ==> dir.durable[n] in dir.files && dir.files[dir.durable[n]].synced
  {
    hide Told, Labelled, Agree, Weight, NamesDistinct, Distinct;
    forall n | n in dir.durable
      ensures dir.durable[n] in dir.files && dir.files[dir.durable[n]].synced
    {
      assert Owned(d.slots, n);
      var k :| k in d.slots && d.slots[k].value.name == n;
      assert FiledAt(dir.files, d.slots[k]) && Listed(dir.durable, d.slots[k].value);
    }
  }

  /** A scan of a running cache's directory finds exactly the survivors. */
  lemma RunningTable(c: DiskConfig, crc: Bytes -> U32, dir: Dir, m: Slots, d: S.Shelf<CacheKey, RecordInfo<Bytes>>,
                     order: seq<Name>, s: Scan<CacheKey>)
    requires Running(c, crc, dir, m, d) && Scanned(dir.durable, MarksOf(c, crc, dir.files), order, order, s)
             && Elements(order) == dir.durable.Keys
    ensures TableOf(c, crc, dir.files, s.found) == Survivors(d.slots)
  {
    hide RevivesIfRead, MarksOf, Running, Scanned, Holding, Elements, SoleName, ImageAt;
    RunningHolds(c, crc, dir, m, d);
    HoldingTable(c, crc, dir, d.slots, order, s);
    var t := TableOf(c, crc, dir.files, s.found);
    forall k | k in d.slots
      ensures k in t <==> k.base.authority != []
    {
      RunningRecord(c, crc, dir, m, d, k);
      assert k in t ==> t[k] == d.slots[k] && Readable(c, crc, dir.files, t[k].value.inode);
    }
  }

  lemma RevivedSame(i: Image, e: Entry, owner: nat, now: Duration, wall: WallTime)
    requires Represents(i, e)
    ensures SameRepresentation(FromImage(i, owner, now, wall), e)
  {
  }

  /** The revived entries are the old ones and take the room the old ones took. */
  lemma GoalIsOld(c: DiskConfig, crc: Bytes -> U32, dir: Dir, m: Slots, d: S.Shelf<CacheKey, RecordInfo<Bytes>>,
                  owner: nat, now: Duration, wall: WallTime)
    requires Running(c, crc, dir, m, d)
    ensures var goal := Goal(c, crc, dir.files, Survivors(d.slots), owner, now, wall);
            && goal.Keys <= m.Keys
            && forall k :: k in goal ==> SameRepresentation(goal[k].value, m[k].value) && goal[k].weight == m[k].weight
  {
    var goal := Goal(c, crc, dir.files, Survivors(d.slots), owner, now, wall);
    forall k | k in goal
      ensures k in m && SameRepresentation(goal[k].value, m[k].value) && goal[k].weight == m[k].weight
    {
      hide Running, RevivesIfRead, ImageAt, Represents, SameRepresentation;
      RunningRecord(c, crc, dir, m, d, k);
      RevivedSame(ImageAt(c, crc, dir.files[d.slots[k].value.inode].bytes).value, m[k].value, owner, now, wall);
      RunningWeight(c, crc, dir, m, d, k);
      SameCharge(goal[k].value, m[k].value);
    }
  }

  lemma RunningWeight(c: DiskConfig, crc: Bytes -> U32, dir: Dir, m: Slots, d: S.Shelf<CacheKey, RecordInfo<Bytes>>,
                      k: CacheKey)
    requires Running(c, crc, dir, m, d) && k in m
    ensures m[k].weight == m[k].value.charge
  {
    hide Filed, S.Valid, Agree, Told;
    assert LabelledAt(m[k], k);
  }

  lemma SameCharge(a: Entry, b: Entry)
    requires SameRepresentation(a, b)
    ensures a.charge == b.charge
  {
  }

  lemma GoalFits(c: Config, goal: Slots, m: Slots)
    requires goal.Keys <= m.Keys && (forall k :: k in goal ==> goal[k].weight == m[k].weight)
    requires |m| <= c.maxEntries && Weight(m) <= c.maxTotalBytes && OneSchema(m.Keys)
    ensures Roomy(c, goal)
  {
    PartSameWeight(goal, m);
    SubsetSize(goal.Keys, m.Keys);
    assert |goal| == |goal.Keys| && |m| == |m.Keys|;
  }

  lemma PartSameWeight<K, V>(a: map<K, Slot<V>>, b: map<K, Slot<V>>)
    requires a.Keys <= b.Keys && forall k :: k in a ==> a[k].weight == b[k].weight
    ensures Weight(a) <= Weight(b)
  {
    assert Part(b, a.Keys).Keys == a.Keys;
    SameWeights(a, Part(b, a.Keys));
    PartWeight(b, a.Keys);
  }

  lemma SurvivorsFit<V>(d: map<CacheKey, Slot<V>>, maxCount: nat, maxBytes: nat)
    requires |d| <= maxCount && Weight(d) <= maxBytes
    ensures |Survivors(d)| <= maxCount && Weight(Survivors(d)) <= maxBytes
  {
    assert Survivors(d).Keys <= d.Keys;
    PartSameWeight(Survivors(d), d);
    SubsetSize(Survivors(d).Keys, d.Keys);
    assert |Survivors(d)| == |Survivors(d).Keys| && |d| == |d.Keys|;
  }

  /** Opening the directory of a running cache: records and entries are those of the
      survivors. */
  lemma OpenedSame(c: DiskConfig, crc: Bytes -> U32, dir: Dir, m: Slots, d: S.Shelf<CacheKey, RecordInfo<Bytes>>,
                   order: seq<Name>,
                   s: Scan<CacheKey>, kept: Table, list: seq<CacheKey>, owner: nat, now: Duration, wall: WallTime,
                   m': Slots, records: Table)
    requires Running(c, crc, dir, m, d) && Elements(order) == dir.durable.Keys
    requires |m| <= c.memory.maxEntries && Weight(m) <= c.memory.maxTotalBytes && OneSchema(m.Keys)
    requires Opened(c, crc, dir, order, s, kept, list, owner, now, wall, m', records)
    ensures records == kept == Survivors(d.slots)
    ensures forall k :: k in m' ==> k in m && SameRepresentation(m'[k].value, m[k].value)
    ensures Continues(c, crc, dir.files, Survivors(d.slots), owner, now, wall, m')
  {
    hide Continues, Revived, Scanned, Elements, Goal, Running, MarksOf, TableOf, Roomy, OldestFirst, IsShortestPrefix,
         Replayed, Survivors, Weight, OneSchema, SameRepresentation, Outcome;
    RunningTable(c, crc, dir, m, d, order, s);
    RunningLimits(c, crc, dir, m, d);
    SurvivorsFit(d.slots, c.maxDiskFiles, c.maxDiskBytes);
    TrimmedFits(Survivors(d.slots), kept, list, c.maxDiskFiles, c.maxDiskBytes);
    SurvivorsPart(m, d.slots);
    SchemaOfPart(m.Keys, kept.Keys);
    OpenedOutcome(c, crc, dir, order, s, kept, list, owner, now, wall, m', records);
    GoalIsOld(c, crc, dir, m, d, owner, now, wall);
    GoalFits(c.memory, Goal(c, crc, dir.files, Survivors(d.slots), owner, now, wall), m);
    RunningConfig(c, crc, dir, m, d);
    GoalContinues(c, crc, dir.files, Survivors(d.slots), owner, now, wall, m');
    RevivedAll(Goal(c, crc, dir.files, Survivors(d.slots), owner, now, wall), m', m);
  }

  lemma SurvivorsPart(m: Slots, d: Table)
    requires Agree(m, d)
    ensures Survivors(d).Keys <= m.Keys
  {
  }

  lemma RevivedAll(goal: Slots, m': Slots, m: Slots)
    requires Revived(goal, m') && goal.Keys <= m.Keys && forall k :: k in goal ==>
               SameRepresentation(goal[k].value, m[k].value)
    ensures forall k :: k in m' ==> k in m && SameRepresentation(m'[k].value, m[k].value)
  {
    hide SameRepresentation;
  }

  lemma RunningConfig(c: DiskConfig, crc: Bytes -> U32, dir: Dir, m: Slots, d: S.Shelf<CacheKey, RecordInfo<Bytes>>)
    requires Running(c, crc, dir, m, d)
    ensures ValidDiskConfig(c)
  {
    hide Told, Labelled, Filed, S.Valid, Agree;
  }

  lemma RunningLimits(c: DiskConfig, crc: Bytes -> U32, dir: Dir, m: Slots, d: S.Shelf<CacheKey, RecordInfo<Bytes>>)
    requires Running(c, crc, dir, m, d)
    ensures |d.slots| <= c.maxDiskFiles && Weight(d.slots) <= c.maxDiskBytes && Agree(m, d.slots)
  {
    hide Told, Labelled, Filed;
  }

  /** Closing and reopening with the same limits: the same records with the same numbers, the
      same representations in memory in the same recency order; no memory insertion evicts
      anything. Ages continue. Only entries with an empty authority are missing. */
  method Reopen(cache: D.DiskCache, owner: nat, order: seq<Name>, now: Duration, wall: WallTime)
    returns (again: D.DiskCache)
    requires cache.Valid() && NoRepeats(order) && Elements(order) == cache.disk.root.dir.durable.Keys
    modifies cache.disk.root
    ensures again.Valid() && again.config == cache.config
    ensures again.disk.index.records == Survivors(old(cache.disk.index.records))
    ensures Reborn(old(cache.cache.store.slots), again.cache.store.slots)
    ensures again.crc == cache.crc && again.disk.root == cache.disk.root && again.cache.identity == owner
    ensures fresh(again.cache) && fresh(again.cache.store) && fresh(again.cache.board) && fresh(again.disk.index)
    ensures again.disk.root.dir.files == old(cache.disk.root.dir.files)
    ensures again.disk.index.sequence <= old(cache.disk.index.sequence)
    ensures Continues(cache.config, cache.crc, old(cache.disk.root.dir.files), Survivors(old(cache.disk.index.records)),
                      owner, now, wall,
              again.cache.store.slots)
  {
    hide Continues, S.Valid, Told, Agree, Inv, R.UsedBelow, Elements, NoRepeats, Filed, Running, Recoverable, Opened,
         Survivors, Labelled, Reborn, Weight, OneSchema;
    ghost var dir, s, d := cache.disk.root.dir, cache.cache.State(), cache.disk.index.Shelf();
    EntriesOf(cache.config.memory, s);
    RunningState(cache.config, cache.crc, dir, s.shelf.slots, d);
    RunningHolds(cache.config, cache.crc, dir, s.shelf.slots, d);
    HoldingIsRecoverable(cache.config, cache.crc, dir, d.slots);
    ghost var scan, kept, list;
    again, scan, kept, list := Open(cache.disk.root, cache.config, cache.crc, owner, order, now, wall);
    OpenedSame(cache.config, cache.crc, dir, s.shelf.slots, d, order, scan, kept, list, owner, now, wall,
               again.cache.store.slots, again.disk.index.records);
    RebornSame(s.shelf.slots, d.slots, again.cache.store.slots);
    NoNewNumber(cache.config, d, list);
  }

  lemma NoNewNumber(c: DiskConfig, d: S.Shelf<CacheKey, RecordInfo<Bytes>>, list: seq<CacheKey>)
    requires S.Valid(d, DiskLimits(c))
    ensures Reached(Survivors(d.slots), list) <= d.clock
  {
  }

  /** The survivors are back, with the same representations in the same order. */
  ghost predicate Reborn(m: Slots, m': Slots) {
    && m'.Keys == Survivors(m).Keys
    && (forall k :: k in m' ==> SameRepresentation(m'[k].value, m[k].value))
    && forall a, b :: a in m' && b in m' ==> (m'[a].stamp < m'[b].stamp <==> m[a].stamp < m[b].stamp)
  }

  lemma RebornSame(m: Slots, d: Table, m': Slots)
    requires Agree(m, d) && Agree(m', Survivors(d))
    requires forall k :: k in m' ==> k in m && SameRepresentation(m'[k].value, m[k].value)
    ensures Reborn(m, m')
  {
    hide SameRepresentation;
  }

  lemma EntriesOf(c: Config, s: Mem)
    requires Inv(c, s)
    ensures Labelled(s.shelf.slots) && OneSchema(s.shelf.slots.Keys)
    ensures |s.shelf.slots| <= c.maxEntries && Weight(s.shelf.slots) <= c.maxTotalBytes
  {
  }

  lemma RunningState(c: DiskConfig, crc: Bytes -> U32, dir: Dir, m: Slots, d: S.Shelf<CacheKey, RecordInfo<Bytes>>)
    requires ValidDiskConfig(c) && Filed(dir, d.slots) && S.Valid(d, DiskLimits(c)) && Agree(m, d.slots)
             && Told(c, crc, dir.files, m, d.slots) && Labelled(m)
    ensures Running(c, crc, dir, m, d)
  {
    hide Filed, S.Valid, Agree, Told, Labelled;
  }

  // ---------------------------------------------------------------- crashes

  /** What a crash at `dir` may leave on disk: some of the pending names, and every file,
      complete if it had been synced. A name always leads to a file. */
  ghost predicate AfterCrash(dir: Dir, names: map<Name, nat>, disk: map<nat, File>) {
    && CrashLeaves(dir, names)
    && (forall n :: n in names ==> names[n] in disk)
    && (forall i :: i in disk ==> disk[i].synced)
    && forall i :: i in dir.files && dir.files[i].synced ==> i in disk && disk[i] == dir.files[i]
  }

  lemma CrashRecord(c: DiskConfig, crc: Bytes -> U32, dir: Dir, names: map<Name, nat>, disk: map<nat, File>,
                    files: map<nat, File>, m: Slots, ceiling: Table, k: CacheKey)
    requires ValidDiskConfig(c) && AfterCrash(dir, names, disk) && Recorded(c, crc, files, m, ceiling)
             && k in Left(ceiling, names)
    requires SameFile(dir.files, files, ceiling[k].value.inode)
    ensures RevivesIfRead(c, crc, disk, ceiling[k], k) && k in m && m[k].value.key == k
            && ReadsAs(c, crc, disk, ceiling[k], m[k].value)
  {
    assert RecordedAt(c, crc, files, m, ceiling, k);
    hide ImageAt, Tells, Bounded, Encode, Represents;
    RecordReads(c, crc, files[ceiling[k].value.inode].bytes, ceiling[k].stamp, m[k].value);
  }

  /** After a crash the directory holds what is left of the ceiling. */
  lemma CrashHolds(c: DiskConfig, crc: Bytes -> U32, dir: Dir, names: map<Name, nat>, disk: map<nat, File>,
                   files: map<nat, File>, m: Slots,
                   floor: Table, ceiling: Table)
    requires ValidDiskConfig(c) && AfterCrash(dir, names, disk) && Recorded(c, crc, files, m, ceiling)
    requires LeftSafe(dir, files, names, floor, ceiling)
    ensures Holding(c, crc, Dir(names, [], disk), Left(ceiling, names))
  {
    hide RevivesIfRead, MarksOf, ReadsAs, RecordedAt, Sub, TempsApart, CrashLeaves;
    var left := Left(ceiling, names);
    forall k | k in left
      ensures RevivesIfRead(c, crc, disk, left[k], k) && MarkedAt(MarksOf(c, crc, disk), left, k)
              && Listed(names, left[k].value)
    {
      CrashRecord(c, crc, dir, names, disk, files, m, ceiling, k);
      MarkOf(c, crc, disk, left, k);
    }
  }

  /** What opening ends with between a floor and a ceiling. */
  ghost predicate FoundAfterCrash(floor: Table, ceiling: Table, m: Slots, records: Table, m': Slots) {
    && Sub(records, ceiling) && m'.Keys == records.Keys
    && (forall k :: k in floor && k.base.authority != [] ==> k in records)
    && forall k :: k in m' ==> k in m && SameRepresentation(m'[k].value, m[k].value)
  }

  /** The entries of the records of a table, in its order. */
  ghost function Entrants(m: Slots, d: Table): Slots {
    map k | k in d && k in m :: Slot(m[k].value, d[k].stamp, m[k].value.charge)
  }

  /** Memory can hold these entries at once, and the others are older. */
  ghost predicate Holdable(c: Config, m: Slots, ceiling: Table, stay: set<CacheKey>) {
    && stay <= ceiling.Keys && OneSchema(ceiling.Keys) && IsPrefix(Entrants(m, ceiling), ceiling.Keys - stay)
    && Fits(Entrants(m, ceiling) - (ceiling.Keys - stay), Limit(c.maxEntries, c.maxTotalBytes))
  }

  /** The entries to be restored are those of the ceiling, with its order and their charges. */
  lemma GoalOfLeft(c: DiskConfig, crc: Bytes -> U32, dir: Dir, names: map<Name, nat>, disk: map<nat, File>,
                   files: map<nat, File>, m: Slots, floor: Table, ceiling: Table, kept: Table, owner: nat,
                   now: Duration, wall: WallTime)
    requires ValidDiskConfig(c) && AfterCrash(dir, names, disk) && Recorded(c, crc, files, m, ceiling)
    requires LeftSafe(dir, files, names, floor, ceiling) && Sub(kept, Left(ceiling, names))
    ensures var goal := Goal(c, crc, disk, kept, owner, now, wall);
            forall k :: k in goal ==> k in Entrants(m, ceiling) && goal[k].weight == Entrants(m, ceiling)[k].weight
                                      && goal[k].stamp == Entrants(m, ceiling)[k].stamp
  {
    hide Recorded, AfterCrash, RevivesIfRead, ImageAt, Represents, SameRepresentation, LeftSafe;
    var goal := Goal(c, crc, disk, kept, owner, now, wall);
    forall k | k in goal
      ensures k in Entrants(m, ceiling) && goal[k].weight == Entrants(m, ceiling)[k].weight
              && goal[k].stamp == Entrants(m, ceiling)[k].stamp
    {
      LeftSameFile(dir, files, names, floor, ceiling, k);
      CrashRecord(c, crc, dir, names, disk, files, m, ceiling, k);
      RevivedSame(ImageAt(c, crc, disk[ceiling[k].value.inode].bytes).value, m[k].value, owner, now, wall);
      SameCharge(goal[k].value, m[k].value);
    }
  }

  lemma LeftSameFile(dir: Dir, files: map<nat, File>, names: map<Name, nat>, floor: Table, ceiling: Table, k: CacheKey)
    requires LeftSafe(dir, files, names, floor, ceiling) && k in Left(ceiling, names)
    ensures SameFile(dir.files, files, ceiling[k].value.inode)
  {
    hide TempsApart, Sub;
  }

  /** Of what is kept, memory gives up none of the entries it can hold. */
  lemma StayRestored(c: DiskConfig, crc: Bytes -> U32, dir: Dir, names: map<Name, nat>, disk: map<nat, File>,
                     files: map<nat, File>, m: Slots, floor: Table, ceiling: Table, stay: set<CacheKey>,
                     order: seq<Name>, s: Scan<CacheKey>, kept: Table, list: seq<CacheKey>,
                     owner: nat, now: Duration, wall: WallTime, m': Slots, records: Table)
    requires ValidDiskConfig(c) && AfterCrash(dir, names, disk) && Recorded(c, crc, files, m, ceiling)
    requires LeftSafe(dir, files, names, floor, ceiling) && Sub(kept, Left(ceiling, names))
    requires Opened(c, crc, Dir(names, [], disk), order, s, kept, list, owner, now, wall, m', records)
    requires Holdable(c.memory, m, ceiling, stay)
    ensures forall k :: k in kept && k in stay ==> k in records
  {
    hide Recorded, AfterCrash, LeftSafe, Opened, Goal, Entrants, IsPrefix, Fits, IsShortestPrefix, OneSchema;
    var goal := Goal(c, crc, disk, kept, owner, now, wall);
    SubLeft(kept, ceiling, names);
    SchemaOfPart(ceiling.Keys, kept.Keys);
    OpenedOutcome(c, crc, Dir(names, [], disk), order, s, kept, list, owner, now, wall, m', records);
    GoalOfLeft(c, crc, dir, names, disk, files, m, floor, ceiling, kept, owner, now, wall);
    PartKeeps(Entrants(m, ceiling), ceiling.Keys - stay, goal, goal.Keys - records.Keys, c.memory.maxEntries,
              c.memory.maxTotalBytes);
  }

  lemma SchemaOfPart(keys: set<CacheKey>, part: set<CacheKey>)
    requires OneSchema(keys) && part <= keys
    ensures OneSchema(part)
  {
  }

  lemma FloorIsSole(names: map<Name, nat>, marks: map<nat, Mark<CacheKey>>, floor: Table, left: Table, k: CacheKey)
    requires Holds(names, marks, left) && Sub(floor, left) && TempsApart(names, floor) && k in floor
    ensures floor[k].value.name in names && SoleName(names, floor[k].value.name)
  {
    assert Listed(names, left[k].value);
    forall n | n in names && names[n] == floor[k].value.inode
      ensures n == floor[k].value.name
    {
      if n.Rec? {
        var j := OwnerOf(names, marks, left, n);
      }
    }
  }

  /** Crash consistency, end to end: a crash at a safe point leaves a directory that can be
      opened, and opening it ends for every key with the complete record of the ceiling or
      nothing. Nothing is trimmed, and every record of the floor that can be read back is there if
      memory can hold it. */
  lemma CrashRecovers(c: DiskConfig, crc: Bytes -> U32, dir: Dir, names: map<Name, nat>, disk: map<nat, File>,
                      files: map<nat, File>, m: Slots,
                      floor: Table, ceiling: Table, stay: set<CacheKey>, order: seq<Name>, s: Scan<CacheKey>,
                      kept: Table, list: seq<CacheKey>,
                      owner: nat, now: Duration, wall: WallTime, m': Slots, records: Table)
    requires ValidDiskConfig(c) && AfterCrash(dir, names, disk) && Recorded(c, crc, files, m, ceiling)
    requires LeftSafe(dir, files, names, floor, ceiling) && |ceiling| <= c.maxDiskFiles
             && Weight(ceiling) <= c.maxDiskBytes
    requires Holdable(c.memory, m, ceiling, stay) && floor.Keys <= stay
    ensures Recoverable(c, crc, Dir(names, [], disk))
    ensures Elements(order) == names.Keys
            && Opened(c, crc, Dir(names, [], disk), order, s, kept, list, owner, now, wall, m', records) ==>
              && kept == TableOf(c, crc, disk, s.found) && FoundAfterCrash(floor, ceiling, m, records, m')
              && Continues(c, crc, files, kept, owner, now, wall, m')
              && (stay == ceiling.Keys ==> records == kept)
  {
    hide Continues, Recorded, Holding, Recoverable, AfterCrash, Opened, LeftSafe, SameRepresentation, Weight, Elements,
         Sub, TableOf;
    var left, after := Left(ceiling, names), Dir(names, [], disk);
    CrashHolds(c, crc, dir, names, disk, files, m, floor, ceiling);
    HoldingIsRecoverable(c, crc, after, left);
    if Elements(order) == names.Keys && Opened(c, crc, after, order, s, kept, list, owner, now, wall, m', records) {
      CrashTable(c, crc, dir, names, disk, files, m, floor, ceiling, order, s, kept, list, owner, now, wall, m',
                 records);
      StayRestored(c, crc, dir, names, disk, files, m, floor, ceiling, stay, order, s, kept, list, owner, now, wall,
                   m', records);
      RecordsFound(ceiling, stay, kept, records);
    }
  }

  lemma RecordsFound(ceiling: Table, stay: set<CacheKey>, kept: Table, records: Table)
    requires Sub(kept, ceiling) && Sub(records, kept) && forall k :: k in kept && k in stay ==> k in records
    ensures Sub(records, ceiling) && (stay == ceiling.Keys ==> records == kept)
  {
    if stay == ceiling.Keys {
      assert records.Keys == kept.Keys;
    }
  }

  lemma CrashTable(c: DiskConfig, crc: Bytes -> U32, dir: Dir, names: map<Name, nat>, disk: map<nat, File>,
                   files: map<nat, File>, m: Slots,
                   floor: Table, ceiling: Table, order: seq<Name>, s: Scan<CacheKey>, kept: Table, list: seq<CacheKey>,
                   owner: nat, now: Duration, wall: WallTime, m': Slots, records: Table)
    requires ValidDiskConfig(c) && AfterCrash(dir, names, disk) && Recorded(c, crc, files, m, ceiling)
    requires LeftSafe(dir, files, names, floor, ceiling) && |ceiling| <= c.maxDiskFiles
             && Weight(ceiling) <= c.maxDiskBytes
    requires Holding(c, crc, Dir(names, [], disk), Left(ceiling, names)) && Elements(order) == names.Keys
    requires Opened(c, crc, Dir(names, [], disk), order, s, kept, list, owner, now, wall, m', records)
    ensures Sub(kept, ceiling) && Sub(kept, Left(ceiling, names)) && Sub(records, kept) && m'.Keys == records.Keys
    ensures kept == TableOf(c, crc, disk, s.found)
    ensures forall k :: k in floor && k.base.authority != [] ==> k in kept
    ensures forall k :: k in m' ==> k in m && SameRepresentation(m'[k].value, m[k].value)
    ensures Continues(c, crc, files, kept, owner, now, wall, m')
  {
    hide Continues, Scanned, MarksOf, TableOf, Recorded, AfterCrash, LeftSafe, Holding, SameRepresentation, Elements,
         Weight, IsShortestPrefix, OldestFirst, Replayed, Goal, Revived, SoleName, Readable, Sub;
    var left, after := Left(ceiling, names), Dir(names, [], disk);
    HoldingTable(c, crc, after, left, order, s);
    LeftWithinQuota(ceiling, names, c.maxDiskFiles, c.maxDiskBytes);
    SubWithinQuota(TableOf(c, crc, disk, s.found), left, c.maxDiskFiles, c.maxDiskBytes);
    TrimmedFits(TableOf(c, crc, disk, s.found), kept, list, c.maxDiskFiles, c.maxDiskBytes);
    SubLeft(kept, ceiling, names);
    forall k | k in floor && k.base.authority != []
      ensures k in kept
    {
      FloorKept(c, crc, dir, names, disk, files, m, floor, ceiling, k);
    }
    forall k | k in m'
      ensures k in m && SameRepresentation(m'[k].value, m[k].value)
    {
      EntryKept(c, crc, dir, names, disk, files, m, floor, ceiling, kept, owner, now, wall, m', k);
    }
    CrashContinues(c, crc, dir, names, disk, files, m, floor, ceiling, kept, owner, now, wall, m');
  }

  lemma CrashContinues(c: DiskConfig, crc: Bytes -> U32, dir: Dir, names: map<Name, nat>, disk: map<nat, File>,
                       files: map<nat, File>, m: Slots,
                       floor: Table, ceiling: Table, kept: Table, owner: nat, now: Duration, wall: WallTime, m': Slots)
    requires ValidDiskConfig(c) && AfterCrash(dir, names, disk) && Recorded(c, crc, files, m, ceiling)
    requires LeftSafe(dir, files, names, floor, ceiling) && Sub(kept, Left(ceiling, names))
    requires Revived(Goal(c, crc, disk, kept, owner, now, wall), m')
    ensures Continues(c, crc, files, kept, owner, now, wall, m')
  {
    hide Goal, Revived, Encode, Bounded, ToldAt, CrashLeaves, NamesDistinct, Distinct, TempsApart, Moved;
    GoalContinues(c, crc, disk, kept, owner, now, wall, m');
    forall k, w | k in m' && k in kept && WrittenFrom(c, crc, files, kept[k], w)
      ensures WrittenFrom(c, crc, disk, kept[k], w)
    {
      assert k in Left(ceiling, names) && RecordedAt(c, crc, files, m, ceiling, k);
      assert SameFile(dir.files, files, ceiling[k].value.inode);
    }
  }

  lemma SubWithinQuota<K, V>(t: map<K, Slot<V>>, d: map<K, Slot<V>>, maxCount: nat, maxBytes: nat)
    requires Sub(t, d) && |d| <= maxCount && Weight(d) <= maxBytes
    ensures |t| <= maxCount && Weight(t) <= maxBytes
  {
    assert t.Keys <= d.Keys;
    PartSameWeight(t, d);
    SubsetSize(t.Keys, d.Keys);
    assert |t| == |t.Keys| && |d| == |d.Keys|;
  }

  lemma SubLeft<K, G>(kept: map<K, Slot<RecordInfo<G>>>, ceiling: map<K, Slot<RecordInfo<G>>>, names: map<Name, nat>)
    requires Sub(kept, Left(ceiling, names))
    ensures Sub(kept, ceiling)
  {
  }

  lemma FloorKept(c: DiskConfig, crc: Bytes -> U32, dir: Dir, names: map<Name, nat>, disk: map<nat, File>,
                  files: map<nat, File>, m: Slots,
                  floor: Table, ceiling: Table, k: CacheKey)
    requires ValidDiskConfig(c) && AfterCrash(dir, names, disk) && Recorded(c, crc, files, m, ceiling)
    requires LeftSafe(dir, files, names, floor, ceiling) && Holding(c, crc, Dir(names, [], disk), Left(ceiling, names))
    requires k in floor && k.base.authority != []
    ensures var left := Left(ceiling, names);
            k in left && left[k].value.name in names && SoleName(names, left[k].value.name)
            && Readable(c, crc, disk, left[k].value.inode)
  {
    hide Recorded, AfterCrash, RevivesIfRead, MarksOf, ImageAt, Represents;
    CrashRecord(c, crc, dir, names, disk, files, m, ceiling, k);
    FloorIsSole(names, MarksOf(c, crc, disk), floor, Left(ceiling, names), k);
  }

  lemma EntryKept(c: DiskConfig, crc: Bytes -> U32, dir: Dir, names: map<Name, nat>, disk: map<nat, File>,
                  files: map<nat, File>, m: Slots,
                  floor: Table, ceiling: Table, kept: Table, owner: nat, now: Duration, wall: WallTime, m': Slots,
                  k: CacheKey)
    requires ValidDiskConfig(c) && AfterCrash(dir, names, disk) && Recorded(c, crc, files, m, ceiling)
    requires LeftSafe(dir, files, names, floor, ceiling) && Sub(kept, Left(ceiling, names))
    requires Revived(Goal(c, crc, disk, kept, owner, now, wall), m') && k in m'
    ensures k in m && SameRepresentation(m'[k].value, m[k].value)
  {
    hide Recorded, AfterCrash, RevivesIfRead, ImageAt, Represents, SameRepresentation;
    CrashRecord(c, crc, dir, names, disk, files, m, ceiling, k);
    RevivedSame(ImageAt(c, crc, disk[ceiling[k].value.inode].bytes).value, m[k].value, owner, now, wall);
  }

  /** A crash at any point of `store`: opening finds for every key its old record, or for the
      stored key the new one, or nothing; never two; and every record that survives the store
      itself is among the records opening ends with. */
  lemma StoreSurvivesCrash(c: DiskConfig, crc: Bytes -> U32, trail: seq<Dir>, from: nat, j: nat, names: map<Name, nat>,
                           disk: map<nat, File>, files: map<nat, File>,
                           m: Slots, e: Entry, before: Table, middle: Table, after: Table, count: nat,
                           order: seq<Name>, s: Scan<CacheKey>, kept: Table, list: seq<CacheKey>, owner: nat,
                           now: Duration, wall: WallTime, m': Slots, records: Table)
    requires ValidDiskConfig(c) && from <= j < |trail| && AfterCrash(trail[j], names, disk)
    requires SafeSince(trail, from, files, after - {e.key}, before, middle)
             && D.Replaced(c, before, middle, after, e.key, count)
    requires Recorded(c, crc, files, m, before) && Recorded(c, crc, files, Shadow(m, e), middle)
    requires |before| <= c.maxDiskFiles && Weight(before) <= c.maxDiskBytes
    requires Holdable(c.memory, m, before, before.Keys) && Holdable(c.memory, Shadow(m, e), middle, after.Keys)
    ensures Recoverable(c, crc, Dir(names, [], disk))
    ensures Elements(order) == names.Keys
            && Opened(c, crc, Dir(names, [], disk), order, s, kept, list, owner, now, wall, m', records) ==>
              CrashOutcome(before, middle, after, m, e, records, m')
              && Continues(c, crc, files, kept, owner, now, wall, m')
  {
    hide Continues, Recorded, AfterCrash, Opened, Elements, LeftSafe, SameRepresentation, Weight, Recoverable,
         CrashSafe, Sub, D.Replaced, Shadow, FoundAfterCrash, CrashOutcome, TableOf, Holdable;
    var floor := after - {e.key};
    FloorInside(c, before, middle, after, e.key, count);
    assert CrashSafe(trail[j], files, floor, before) || CrashSafe(trail[j], files, floor, middle);
    if CrashSafe(trail[j], files, floor, before) {
      CrashLeft(trail[j], names, disk, files, floor, before);
      CrashRecovers(c, crc, trail[j], names, disk, files, m, floor, before, before.Keys, order, s, kept, list, owner,
                    now, wall, m', records);
      if FoundAfterCrash(floor, before, m, records, m') {
        AllOld(m, e, before, middle, after, records, m');
      }
    } else {
      CrashLeft(trail[j], names, disk, files, floor, middle);
      MiddleFits(c, before, middle, after, e.key, count);
      CrashRecovers(c, crc, trail[j], names, disk, files, Shadow(m, e), floor, middle, after.Keys, order, s, kept, list,
                    owner, now, wall, m', records);
      if FoundAfterCrash(floor, middle, Shadow(m, e), records, m') {
        AllNew(c, m, e, before, middle, after, count, records, m');
      }
    }
  }

  lemma FloorInside(c: DiskConfig, before: Table, middle: Table, after: Table, key: CacheKey, count: nat)
    requires D.Replaced(c, before, middle, after, key, count)
    ensures (after - {key}).Keys <= before.Keys && (after - {key}).Keys <= after.Keys
  {
    hide Weight;
    forall k | k in after - {key}
      ensures k in before
    {
      assert k in middle - {key};
    }
  }

  /** The same for every operation that changes the table from `before` to `after`: touching,
      expiry and purges. Whatever a crash in the middle leaves, opening ends with a part of the one
      table or of the other, with all the readable records both have. */
  lemma ChangeSurvivesCrash(c: DiskConfig, crc: Bytes -> U32, trail: seq<Dir>, from: nat, j: nat, names: map<Name, nat>,
                            disk: map<nat, File>,
                            earlier: map<nat, File>, files: map<nat, File>, m: Slots, before: Table, m1: Slots,
                            after: Table,
                            order: seq<Name>, s: Scan<CacheKey>, kept: Table, list: seq<CacheKey>, owner: nat,
                            now: Duration, wall: WallTime, m': Slots, records: Table)
    requires ValidDiskConfig(c) && from <= j < |trail| && AfterCrash(trail[j], names, disk)
    requires SafeChange(trail, from, files, before, after) && Sub(earlier, files)
    requires Recorded(c, crc, earlier, m, before) && Recorded(c, crc, files, m1, after)
    requires |before| <= c.maxDiskFiles && Weight(before) <= c.maxDiskBytes && |after| <= c.maxDiskFiles
             && Weight(after) <= c.maxDiskBytes
    requires Holdable(c.memory, m, before, before.Keys) && Holdable(c.memory, m1, after, after.Keys)
    ensures Recoverable(c, crc, Dir(names, [], disk))
    ensures Elements(order) == names.Keys
            && Opened(c, crc, Dir(names, [], disk), order, s, kept, list, owner, now, wall, m', records) ==>
              && records == kept && Continues(c, crc, files, records, owner, now, wall, m')
              && (|| FoundAfterCrash(Common(before, after), before, m, records, m')
                  || FoundAfterCrash(Common(before, after), after, m1, records, m'))
  {
    hide Continues, Recorded, AfterCrash, Opened, Elements, LeftSafe, Weight, Recoverable, CrashSafe, Sub, TableOf,
         FoundAfterCrash, Common, Holdable;
    var floor := Common(before, after);
    CommonInside(before, after);
    RecordedLater(c, crc, earlier, files, m, before);
    assert CrashSafe(trail[j], files, floor, before) || CrashSafe(trail[j], files, floor, after);
    if CrashSafe(trail[j], files, floor, before) {
      CrashLeft(trail[j], names, disk, files, floor, before);
      CrashRecovers(c, crc, trail[j], names, disk, files, m, floor, before, before.Keys, order, s, kept, list, owner,
                    now, wall, m', records);
    } else {
      CrashLeft(trail[j], names, disk, files, floor, after);
      CrashRecovers(c, crc, trail[j], names, disk, files, m1, floor, after, after.Keys, order, s, kept, list, owner,
                    now, wall, m', records);
    }
  }

  lemma CommonInside(before: Table, after: Table)
    ensures Common(before, after).Keys <= before.Keys && Common(before, after).Keys <= after.Keys
  {
  }

  lemma MiddleFits(c: DiskConfig, before: Table, middle: Table, after: Table, key: CacheKey, count: nat)
    requires D.Replaced(c, before, middle, after, key, count)
    ensures |middle| <= c.maxDiskFiles && Weight(middle) <= c.maxDiskBytes
  {
  }

  lemma AllOld(m: Slots, e: Entry, before: Table, middle: Table, after: Table, records: Table, m': Slots)
    requires FoundAfterCrash(after - {e.key}, before, m, records, m')
    ensures CrashOutcome(before, middle, after, m, e, records, m')
  {
    hide SameRepresentation;
    assert forall k :: k in after && k != e.key ==> k in after - {e.key};
  }

  lemma AllNew(c: DiskConfig, m: Slots, e: Entry, before: Table, middle: Table, after: Table, count: nat,
               records: Table, m': Slots)
    requires D.Replaced(c, before, middle, after, e.key, count)
    requires FoundAfterCrash(after - {e.key}, middle, Shadow(m, e), records, m')
    ensures CrashOutcome(before, middle, after, m, e, records, m')
  {
    hide SameRepresentation, D.Replaced;
    ReplacedParts(c, before, middle, after, e.key, count);
    assert forall k :: k in after && k != e.key ==> k in after - {e.key};
    forall k | k in records
      ensures OldOrNew(before, middle, e.key, records, k)
    {
      assert k != e.key ==> k in middle - {e.key};
    }
  }

  lemma ReplacedParts(c: DiskConfig, before: Table, middle: Table, after: Table, key: CacheKey, count: nat)
    requires D.Replaced(c, before, middle, after, key, count)
    ensures Sub(middle - {key}, before) && Sub(after, middle)
  {
    hide Weight, Sub;
  }

  /** What opening may end with after a crash during `store`. */
  ghost predicate CrashOutcome(before: Table, middle: Table, after: Table, m: Slots, e: Entry, records: Table,
                               m': Slots) {
    && (forall k :: k in records ==> OldOrNew(before, middle, e.key, records, k))
    && (forall k :: k in after && k != e.key && k.base.authority != [] ==> k in records)
    && m'.Keys == records.Keys
    && forall k :: k in m' ==> SameAsOldOrNew(m, e, m', k)
  }

  ghost predicate OldOrNew(before: Table, middle: Table, key: CacheKey, records: Table, k: CacheKey)
    requires k in records
  {
    (k in before && records[k] == before[k]) || (k == key && k in middle && records[k] == middle[k])
  }

  ghost predicate SameAsOldOrNew(m: Slots, e: Entry, m': Slots, k: CacheKey)
    requires k in m'
  {
    (k in m && SameRepresentation(m'[k].value, m[k].value)) || (k == e.key && SameRepresentation(m'[k].value, e))
  }

  lemma CrashLeft(dir: Dir, names: map<Name, nat>, disk: map<nat, File>, files: map<nat, File>, floor: Table,
                  ceiling: Table)
    requires AfterCrash(dir, names, disk) && CrashSafe(dir, files, floor, ceiling)
    ensures LeftSafe(dir, files, names, floor, ceiling)
  {
    hide LeftSafe;
  }
}
