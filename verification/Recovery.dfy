/** Opening the persistent cache (`scan_root`): the directory is scanned in any order, the
    newest readable record of every key is kept, the quotas are enforced, and the memory
    cache and the tag index are rebuilt, oldest record first. */
module Recovery {
  import opened Prelude
  import opened Sets
  import opened Keys
  import opened Policy
  import opened Entries
  import opened Lru
  import opened Codec
  import opened Records
  import opened RecordFacts
  import opened Directory
  import opened DiskIndex
  import opened CacheModel
  import opened CacheInvariants
  import opened Ledger
  import opened DiskWorld
  import opened Scan
  import opened Rebuild
  import opened Replay
  import L = Ledger
  import M = MemoryCache
  import D = DiskCache
  import R = Root
  import S = Shelf
  import RS = RecordStore
  import T = TagIndex

  /** `read_record`: what a file says, if it is small enough and decodes. */
  function ImageAt(c: DiskConfig, crc: Bytes -> U32, bytes: Bytes): Option<Image> {
    if |bytes| > c.maxRecordBytes then None else Decode(c.memory, crc, bytes)
  }

  function MarksOf(c: DiskConfig, crc: Bytes -> U32, files: map<nat, File>): map<nat, Mark<CacheKey>> {
    map i | i in files && ImageAt(c, crc, files[i].bytes).Some? ::
      Mark(ImageAt(c, crc, files[i].bytes).value.key, ImageAt(c, crc, files[i].bytes).value.access)
  }

  /** The bytes are the record of this image, written with this number. */
  predicate WrittenAs(crc: Bytes -> U32, bytes: Bytes, number: nat, i: Image) {
    Encode(crc, i) == Some(bytes) && 0 < i.sequence == number == i.access
  }

  /** A readable record was written by the cache under its own number. */
  ghost predicate Genuine(c: DiskConfig, crc: Bytes -> U32, files: map<nat, File>, n: Name, inode: nat) {
    && inode in files && files[inode].synced
    && (n.Rec? && ImageAt(c, crc, files[inode].bytes).Some? ==>
          WrittenAs(crc, files[inode].bytes, n.sequence, ImageAt(c, crc, files[inode].bytes).value))
  }

  /** A directory the cache may find: any mixture of temporary names, unreadable files and
      records it has written, where records have files and numbers of their own. */
  ghost predicate Recoverable(c: DiskConfig, crc: Bytes -> U32, dir: Dir) {
    && dir.pending == []
    && (forall n :: n in dir.durable ==> Genuine(c, crc, dir.files, n, dir.durable[n]))
    && Unshared(dir.durable, MarksOf(c, crc, dir.files))
  }

  // ---------------------------------------------------------------- first pass

  /** The loop over the directory entries. */
  method ScanRoot(root: R.Root, c: DiskConfig, crc: Bytes -> U32, order: seq<Name>)
    returns (found: map<CacheKey, Kept>, ghost gone: seq<Name>)
    requires root.Valid() && Recoverable(c, crc, root.dir)
    requires NoRepeats(order) && Elements(order) == root.dir.durable.Keys
    modifies root
    ensures root.Valid() && root.nextId == old(root.nextId)
    ensures root.dir == old(root.dir).(pending := R.Unlinks(gone))
    ensures root.trail == old(root.trail) + TrailOf(old(root.dir), R.Unlinks(gone))
    ensures Scanned(old(root.dir).durable, MarksOf(c, crc, old(root.dir).files), order, order,
              Scan(old(root.dir).durable - Elements(gone), found))
  {
    hide Scanned, Unshared, Genuine, R.UsedBelow, Decode, R.Unlinks, MarksOf, Visit, Elements, ImageAt, NoRepeats,
         TrailOf;
    R.NoUnlinks(root.dir);
    ghost var before, marks := root.dir, MarksOf(c, crc, root.dir.files);
    var names := root.dir.durable;
    found, gone := map[], [];
    NothingScanned(names, marks, order);
    NothingGone(names);
    for p := 0 to |order|
      invariant root.Valid() && root.nextId == old(root.nextId)
      invariant root.dir == before.(pending := R.Unlinks(gone)) && names == before.durable - Elements(gone)
      invariant root.trail == old(root.trail) + TrailOf(before, R.Unlinks(gone))
      invariant Scanned(before.durable, marks, order, order[..p], Scan(names, found))
    {
      var n := order[p];
      NextTurn(before.durable, order, p);
      VisitKeeps(before.durable, marks, order, order[..p], Scan(names, found), n);
      NamesKnown(c, crc, before, root.nextId, order, order[..p], Scan(names, found));
      VisitCases(c, crc, before.files, names, found, n);
      var doomed: Option<Name> := Some(n);
      if n in names && n.Rec? && SoleName(names, n) {
        var image := ImageAt(c, crc, root.dir.files[names[n]].bytes);
        if image.Some? {
          var key, kept := image.value.key, Kept(n, names[n], image.value.access);
          if key !in found {
            doomed := None;
            found := found[key := kept];
          } else if found[key].stamp < kept.stamp {
            doomed := Some(found[key].name);
            found := found[key := kept];
          }
        }
      }
      if doomed.Some? {
        OneMoreGone(before.durable, gone, doomed.value);
        Discard(root, doomed.value, before, gone, old(root.trail));
        names := names - {doomed.value};
        gone := gone + [doomed.value];
      }
    }
    assert order[..|order|] == order;
  }

  /** `remove_namespace_entry` and `remove_owned_name`. */
  method Discard(root: R.Root, n: Name, ghost before: Dir, ghost gone: seq<Name>, ghost start: seq<Dir>)
    requires root.Valid() && n.id < root.nextId && before.pending == []
             && root.dir == before.(pending := R.Unlinks(gone))
    requires root.trail == start + TrailOf(before, R.Unlinks(gone))
    modifies root
    ensures root.Valid() && root.nextId == old(root.nextId) && root.dir == before.(pending := R.Unlinks(gone + [n]))
    ensures root.trail == start + TrailOf(before, R.Unlinks(gone + [n]))
  {
    hide R.UsedBelow, TrailOf, R.Unlinks;
    RS.UnlinkOneMore(gone, n);
    TrailOneMore(before, R.Unlinks(gone), Unlink(n));
    assert before.pending + R.Unlinks(gone) == R.Unlinks(gone);
    root.Unlink(n);
  }

  lemma NothingGone(names: map<Name, nat>)
    ensures names - Elements([]) == names && R.Unlinks([]) == []
  {
  }

  lemma OneMoreGone(names: map<Name, nat>, gone: seq<Name>, n: Name)
    ensures names - Elements(gone) - {n} == names - Elements(gone + [n])
    ensures R.Unlinks(gone + [n]) == R.Unlinks(gone) + [Unlink(n)]
  {
    ElementsOfAppend(gone, [n]);
    assert Elements([n]) == {n};
    assert names - Elements(gone) - {n} == names - (Elements(gone) + {n});
  }

  lemma NextTurn(names: map<Name, nat>, order: seq<Name>, p: nat)
    requires NoRepeats(order) && Elements(order) == names.Keys && p < |order|
    ensures order[p] in names && order[p] !in order[..p] && Before(order, order[p]) == order[..p]
    ensures order[..p + 1] == order[..p] + [order[p]]
  {
    hide Before;
    assert order[p] in Elements(order);
    BeforeIs(order, p);
  }

  /** The body of the loop is one visit. */
  lemma VisitCases(c: DiskConfig, crc: Bytes -> U32, files: map<nat, File>, names: map<Name, nat>,
                   found: map<CacheKey, Kept>, n: Name)
    requires n in names ==> names[n] in files
    ensures var v := Visit(MarksOf(c, crc, files), Scan(names, found), n);
            if n in names && n.Rec? && SoleName(names, n) && ImageAt(c, crc, files[names[n]].bytes).Some? then
              var image := ImageAt(c, crc, files[names[n]].bytes).value;
              var kept := Kept(n, names[n], image.access);
              if image.key !in found then v == Scan(names, found[image.key := kept])
              else if found[image.key].stamp < kept.stamp then v == Scan(names - {found[image.key].name},
                                                                         found[image.key := kept])
              else v == Scan(names - {n}, found)
            else v == Scan(names - {n}, found)
  {
    hide ImageAt;
  }

  /** All names at hand are in use and lead to files. */
  lemma NamesKnown(c: DiskConfig, crc: Bytes -> U32, dir: Dir, nextId: nat, order: seq<Name>, visited: seq<Name>,
                   s: Scan<CacheKey>)
    requires Recoverable(c, crc, dir) && R.UsedBelow(dir, nextId)
    requires Scanned(dir.durable, MarksOf(c, crc, dir.files), order, visited, s)
    ensures forall n :: n in dir.durable ==> n.id < nextId
    ensures forall n :: n in s.names ==> n in dir.durable && s.names[n] in dir.files
    ensures forall k :: k in s.found ==> s.found[k].name in s.names
  {
    hide MarksOf, Unshared, Decode;
    forall n | n in s.names
      ensures n in dir.durable && s.names[n] in dir.files
    {
      assert Genuine(c, crc, dir.files, n, dir.durable[n]);
    }
    forall k | k in s.found
      ensures s.found[k].name in s.names
    {
      assert FoundAt(dir.durable, MarksOf(c, crc, dir.files), order, s, k);
    }
  }

  // ---------------------------------------------------------------- the records found

  predicate Readable(c: DiskConfig, crc: Bytes -> U32, files: map<nat, File>, inode: nat) {
    inode in files && ImageAt(c, crc, files[inode].bytes).Some?
  }

  function SlotOf(c: DiskConfig, crc: Bytes -> U32, files: map<nat, File>, kept: Kept): Slot<RecordInfo<Bytes>>
    requires Readable(c, crc, files, kept.inode)
  {
    var bytes := files[kept.inode].bytes;
    Slot(RecordInfo(kept.name, kept.inode, ImageAt(c, crc, bytes).value.tags), kept.stamp, |bytes|)
  }

  function TableOf(c: DiskConfig, crc: Bytes -> U32, files: map<nat, File>, found: map<CacheKey, Kept>): Table {
    map k | k in found && Readable(c, crc, files, found[k].inode) :: SlotOf(c, crc, files, found[k])
  }

  /** The record can be read back as written, for this key. */
  ghost predicate RevivableAt(c: DiskConfig, crc: Bytes -> U32, files: map<nat, File>, slot: Slot<RecordInfo<Bytes>>,
                              k: CacheKey) {
    && Readable(c, crc, files, slot.value.inode)
    && var bytes := files[slot.value.inode].bytes;
       var i := ImageAt(c, crc, bytes).value;
       i.key == k && WrittenAs(crc, bytes, slot.stamp, i) && slot.weight == |bytes| && slot.value.tags == i.tags
  }

  ghost predicate Revivable(c: DiskConfig, crc: Bytes -> U32, files: map<nat, File>, d: Table) {
    forall k :: k in d ==> RevivableAt(c, crc, files, d[k], k)
  }

  /** What the scan says of one key. */
  lemma FoundRecord(c: DiskConfig, crc: Bytes -> U32, dir: Dir, order: seq<Name>, s: Scan<CacheKey>, k: CacheKey)
    requires Recoverable(c, crc, dir) && k in s.found && FoundAt(dir.durable, MarksOf(c, crc, dir.files), order, s, k)
    ensures Readable(c, crc, dir.files, s.found[k].inode)
    ensures var slot := SlotOf(c, crc, dir.files, s.found[k]);
            && RevivableAt(c, crc, dir.files, slot, k) && FiledAt(dir.files, slot) && 2 <= slot.weight
            && slot.stamp <= U64_MAX
            && slot.value.name in dir.durable && dir.durable[slot.value.name] == slot.value.inode
  {
    hide Encode, Unshared;
    var kept := s.found[k];
    assert Genuine(c, crc, dir.files, kept.name, dir.durable[kept.name]);
    var i := ImageAt(c, crc, dir.files[kept.inode].bytes).value;
    RecordAtLeast(crc, i);
    WrittenNumbers(crc, dir.files[kept.inode].bytes, kept.name.sequence, i);
    hide ImageAt;
  }

  lemma WrittenNumbers(crc: Bytes -> U32, bytes: Bytes, number: nat, i: Image)
    requires WrittenAs(crc, bytes, number, i)
    ensures number <= U64_MAX
  {
    hide PutImage, KeyFits, HeadersFit, TagsFit, ValidatorsFit;
  }

  /** The table of the records found: filed, in numbers of their own, and revivable. */
  lemma FoundTable(c: DiskConfig, crc: Bytes -> U32, dir: Dir, order: seq<Name>, s: Scan<CacheKey>)
    requires Recoverable(c, crc, dir) && Elements(order) == dir.durable.Keys
    requires Scanned(dir.durable, MarksOf(c, crc, dir.files), order, order, s)
    ensures var t := TableOf(c, crc, dir.files, s.found);
            && t.Keys == s.found.Keys && Filed(dir.(durable := s.names), t)
            && Distinct(t) && Revivable(c, crc, dir.files, t) && S.Weighty(t) && S.StampsUpTo(t, U64_MAX)
  {
    UnsharedOf(c, crc, dir);
    FoundSlots(c, crc, dir, order, s);
    hide RevivableAt, Recoverable, MarksOf, Unshared, Filed, Distinct, Scanned, TableOf, Revivable, S.Weighty,
         S.StampsUpTo, EntersAs;
    ScanFiles(dir, MarksOf(c, crc, dir.files), order, s, TableOf(c, crc, dir.files, s.found));
  }

  lemma FoundSlots(c: DiskConfig, crc: Bytes -> U32, dir: Dir, order: seq<Name>, s: Scan<CacheKey>)
    requires Recoverable(c, crc, dir) && Scanned(dir.durable, MarksOf(c, crc, dir.files), order, order, s)
    ensures var t := TableOf(c, crc, dir.files, s.found);
            Enters(dir, s, t) && Revivable(c, crc, dir.files, t) && S.Weighty(t) && S.StampsUpTo(t, U64_MAX)
  {
    var t := TableOf(c, crc, dir.files, s.found);
    hide RevivableAt, Recoverable, MarksOf, Unshared, ImageAt, FiledAt;
    forall k | k in s.found
      ensures k in t && EntersAs(s.found[k], t[k]) && RevivableAt(c, crc, dir.files, t[k], k)
      ensures FiledAt(dir.files, t[k]) && 2 <= t[k].weight && t[k].stamp <= U64_MAX
    {
      assert FoundAt(dir.durable, MarksOf(c, crc, dir.files), order, s, k);
      FoundRecord(c, crc, dir, order, s, k);
    }
    assert t.Keys == s.found.Keys;
  }

  lemma UnsharedOf(c: DiskConfig, crc: Bytes -> U32, dir: Dir)
    requires Recoverable(c, crc, dir)
    ensures dir.pending == [] && Unshared(dir.durable, MarksOf(c, crc, dir.files))
  {
    hide MarksOf, Unshared, Genuine;
  }

  // ---------------------------------------------------------------- second pass

  /** The entry a record is restored as. */
  function Revive(c: DiskConfig, crc: Bytes -> U32, files: map<nat, File>, slot: Slot<RecordInfo<Bytes>>, owner: nat,
                  now: Duration, wall: WallTime): Entry
    requires Readable(c, crc, files, slot.value.inode)
  {
    FromImage(ImageAt(c, crc, files[slot.value.inode].bytes).value, owner, now, wall)
  }

  lemma RevivedEntry(c: DiskConfig, crc: Bytes -> U32, files: map<nat, File>, slot: Slot<RecordInfo<Bytes>>,
                     k: CacheKey, owner: nat, now: Duration, wall: WallTime)
    requires RevivableAt(c, crc, files, slot, k)
    ensures var e := Revive(c, crc, files, slot, owner, now, wall);
            e.key == k && SizedEntry(c.memory, e) && ToldAt(c, crc, files, slot, e)
  {
    var bytes := files[slot.value.inode].bytes;
    var i := ImageAt(c, crc, bytes).value;
    DecodedIsBounded(c.memory, crc, bytes);
    hide Encode, Decode, Encodable;
    BoundedRevival(c.memory, i, owner, now, wall);
    assert IsImageOf(crc, bytes, slot.stamp, i, FromImage(i, owner, now, wall));
    hide BoundedImage, Bounded;
  }

  lemma BoundedRevival(c: Config, i: Image, owner: nat, now: Duration, wall: WallTime)
    requires BoundedImage(c, i)
    ensures var e := FromImage(i, owner, now, wall); Bounded(c, e) && SizedEntry(c, e) && Represents(i, e)
  {
    hide BoundedKey, BoundedHeaders, ProperHeaders, BoundedTags, BoundedValidator;
  }

  /** For a new entry, the conflicting entries go and then the shortest least recently used
      prefix of the others that makes room. */
  ghost predicate GivesUp(c: Config, m: Slots, e: Entry, gone: set<CacheKey>) {
    exists evicted :: && IsShortestPrefix(m - Conflicting(m.Keys, e.key), evicted, RoomFor(c, e))
                      && gone == Conflicting(m.Keys, e.key) + evicted
  }

  /** What a restored entry displaces and evicts. */
  lemma RestoreMoves(c: Config, owner: nat, s: Mem, e: Entry, delta: Delta, s': Mem)
    requires Accountable(c) && Inv(c, s) && e.key !in s.shelf.slots
             && Step(c, owner, s, RestoreEvent(e, Some(delta)), s')
    ensures var gone := Elements(delta.removed);
            && gone <= s.shelf.slots.Keys && S.PutOver(s.shelf.slots, s'.shelf.slots, e.key, e, e.charge, gone)
            && GivesUp(c, s.shelf.slots, e, gone)
  {
    RestoredSlots(c, s.shelf, e, delta);
  }

  lemma RestoredSlots(c: Config, h: Store, e: Entry, delta: Delta)
    requires Accountable(c) && EntriesInv(c, h) && SizedEntry(c, e) && e.key !in h.slots
             && IsDelta(c, h.slots, e, delta)
    ensures var gone := Elements(delta.removed);
            && gone <= h.slots.Keys
            && S.PutOver(h.slots, Insert(h, e, Elements(EvictedBy(delta))).slots, e.key, e, e.charge, gone)
            && GivesUp(c, h.slots, e, gone)
  {
    RemovedSplits(delta);
    DisplacedAbsent(h.slots.Keys, e.key);
    var displaced, evicted := Displaced(h.slots.Keys, e.key), Elements(EvictedBy(delta));
    hide S.Valid, S.PutOver, IsPrefix, Fits, NoShorterFits, IsShortestPrefix, OldestFirst, EvictedBy, DisplacedBy,
         Elements, Insert, Displaced, Conflicting, Labelled, OneSchema;
    InsertKeepsEntries(c, h, e, evicted);
    D.PrefixResident(h.slots - displaced, evicted, RoomFor(c, e));
  }

  lemma DisplacedAbsent(keys: set<CacheKey>, key: CacheKey)
    requires key !in keys
    ensures Displaced(keys, key) == Conflicting(keys, key) && Displaced(keys, key) <= keys
  {
  }

  /** One turn of the restoring loop: the entry enters memory, its record the table, and what
      memory gave up for it leaves the disk. */
  method RestoreOne(root: R.Root, memory: M.MemoryCache, index: DiskIndex<CacheKey, Bytes>, c: DiskConfig,
                    ghost crc: Bytes -> U32,
                    slot: Slot<RecordInfo<Bytes>>, e: Entry)
    returns (ghost lost: set<CacheKey>, ghost gone: seq<Name>)
    requires ValidDiskConfig(c) && memory.Valid() && memory.config == c.memory
    requires root.Valid() && index.Indexed() && S.Valid(index.Shelf(), DiskLimits(c))
    requires RS.NamesBelow(index.records, root.nextId) && slot.value.name.id < root.nextId
    requires e.key !in index.records && SizedEntry(c.memory, e) && ToldAt(c, crc, root.dir.files, slot, e)
    requires Agree(memory.store.slots, index.records) && Told(c, crc, root.dir.files, memory.store.slots, index.records)
    requires index.sequence < slot.stamp <= U64_MAX && 2 <= slot.weight
             && Fits(index.records, D.RoomOnDisk(c, slot.weight))
    modifies root, memory, memory.store, index
    ensures memory.Valid() && root.Valid() && index.Indexed() && S.Valid(index.Shelf(), DiskLimits(c))
    ensures index.records == old(index.records)[e.key := slot] - lost && lost <= old(index.records.Keys)
            && index.sequence == slot.stamp
    ensures Agree(memory.store.slots, index.records) && Told(c, crc, root.dir.files, memory.store.slots, index.records)
    ensures S.PutOver(old(memory.store.slots), memory.store.slots, e.key, e, e.charge, lost)
    ensures GivesUp(c.memory, old(memory.store.slots), e, lost)
    ensures root.dir == old(root.dir).(pending := old(root.dir).pending + R.Unlinks(gone))
            && root.nextId == old(root.nextId)
    ensures root.trail == old(root.trail) + TrailOf(old(root.dir), R.Unlinks(gone))
    ensures Elements(gone) == NameSet(old(index.records), lost)
  {
    hide TrailOf, S.Valid, S.PutOver, Told, ToldAt, Agree, Inv, Accountable, Step, SizedEntry, Fits, GivesUp,
         T.Exact, Carried, R.UsedBelow, R.Unlinks, Elements, NameSet, L.Newest;
    ghost var s, d, files := memory.State(), index.records, root.dir.files;
    D.SameKeys(s.shelf.slots, d);
    var delta := memory.Restore(e);
    RestoreMoves(c.memory, memory.identity, s, e, delta, memory.State());
    lost := Elements(delta.removed);
    gone := RS.Reenter(root, index, e.key, slot, Elements(delta.removed), DiskLimits(c));
    RestoredAgree(c, crc, files, s.shelf.slots, memory.store.slots, d, e, slot, lost);
  }

  lemma RestoredAgree(c: DiskConfig, crc: Bytes -> U32, files: map<nat, File>, m: Slots, m': Slots, d: Table, e: Entry,
                      slot: Slot<RecordInfo<Bytes>>, lost: set<CacheKey>)
    requires Agree(m, d) && Told(c, crc, files, m, d) && e.key !in d && lost <= m.Keys
    requires S.PutOver(m, m', e.key, e, e.charge, lost) && L.Newest(d, e.key, slot.stamp)
             && ToldAt(c, crc, files, slot, e)
    ensures Agree(m', d[e.key := slot] - lost) && Told(c, crc, files, m', d[e.key := slot] - lost)
  {
    D.SameKeys(m, d);
    hide S.PutOver, Agree, L.Newest, Told, ToldAt;
    AgreePut(m, m', d, e.key, e, e.charge, lost, slot);
    ToldPut(c, crc, files, files, m, m', d, e.key, e, lost, slot);
  }

  // ---------------------------------------------------------------- all records

  /** The memory table recovery aims at. */
  ghost function Goal(c: DiskConfig, crc: Bytes -> U32, files: map<nat, File>, kept: Table, owner: nat, now: Duration,
                      wall: WallTime): Slots {
    map k | k in kept && Readable(c, crc, files, kept[k].value.inode) ::
      var e := Revive(c, crc, files, kept[k], owner, now, wall);
      Slot(e, kept[k].stamp, e.charge)
  }

  /** Everything fits into the memory cache at once. */
  ghost predicate Roomy(c: Config, goal: Slots) {
    |goal| <= c.maxEntries && Weight(goal) <= c.maxTotalBytes && OneSchema(goal.Keys)
  }

  /** Resident entries are the revived ones. */
  ghost predicate Revived(goal: Slots, m: Slots) {
    forall k :: k in m ==> k in goal && m[k].value == goal[k].value
  }

  /** The records restored so far, without those given up again. */
  ghost function Restored<K, V>(kept: map<K, V>, list: seq<K>, i: nat, lost: set<K>): map<K, V>
    requires i <= |list|
  {
    map k | k in kept && k in list[..i] && k !in lost :: kept[k]
  }

  lemma NothingRestored<K, V>(kept: map<K, V>, list: seq<K>)
    ensures Restored(kept, list, 0, {}) == map[]
  {
  }

  lemma AllRestored<K, V>(kept: map<K, V>, list: seq<K>, lost: set<K>)
    requires Elements(list) == kept.Keys
    ensures Restored(kept, list, |list|, lost) == kept - lost
  {
    assert list[..|list|] == list;
    assert forall k :: k in kept ==> k in Elements(list);
  }

  /** The next record is new, has a higher number than all before, and there is room. */
  lemma NextRestored<K(!new), W>(kept: map<K, Slot<W>>, list: seq<K>, i: nat, lost: set<K>, maxCount: nat,
                                 maxBytes: nat)
    requires OldestFirst(kept, list) && i < |list| && |kept| <= maxCount && Weight(kept) <= maxBytes
    ensures list[i] in kept && list[i] !in Restored(kept, list, i, lost)
    ensures Fits(Restored(kept, list, i, lost), Room(kept[list[i]].weight, maxCount, maxBytes))
    ensures i > 0 ==> list[i - 1] in kept && kept[list[i - 1]].stamp < kept[list[i]].stamp
  {
    RoomInSub(Restored(kept, list, i, lost), kept, list[i]);
  }

  lemma OneMoreRestored<K(!new), W>(kept: map<K, Slot<W>>, list: seq<K>, i: nat, lost: set<K>, more: set<K>)
    requires OldestFirst(kept, list) && i < |list| && lost <= Elements(list[..i])
             && more <= Restored(kept, list, i, lost).Keys
    ensures Restored(kept, list, i, lost)[list[i] := kept[list[i]]] - more == Restored(kept, list, i + 1, lost + more)
    ensures lost + more <= Elements(list[..i + 1])
  {
    assert list[..i + 1] == list[..i] + [list[i]];
    assert forall k :: k in list[..i + 1] <==> k in list[..i] || k == list[i];
    assert list[i] !in list[..i];
  }

  /** Everything known about a kept record. */
  lemma KeptRecord(c: DiskConfig, crc: Bytes -> U32, dir: Dir, nextId: nat, kept: Table, k: CacheKey, owner: nat,
                   now: Duration, wall: WallTime)
    requires Filed(dir, kept) && R.UsedBelow(dir, nextId) && Revivable(c, crc, dir.files, kept) && k in kept
    ensures Readable(c, crc, dir.files, kept[k].value.inode)
    ensures var e := Revive(c, crc, dir.files, kept[k], owner, now, wall);
            && e.key == k && SizedEntry(c.memory, e) && ToldAt(c, crc, dir.files, kept[k], e)
            && k in Goal(c, crc, dir.files, kept, owner, now, wall)
            && Goal(c, crc, dir.files, kept, owner, now, wall)[k] == Slot(e, kept[k].stamp, e.charge)
    ensures 0 < kept[k].stamp && kept[k].value.name.id < nextId
  {
    assert FiledAt(dir.files, kept[k]) && Listed(dir.durable, kept[k].value);
    assert RevivableAt(c, crc, dir.files, kept[k], k);
    hide RevivableAt, ToldAt, ImageAt, Revive, Filed, Revivable, SizedEntry;
    RevivedEntry(c, crc, dir.files, kept[k], k, owner, now, wall);
  }

  lemma RestoredBelow(dir: Dir, nextId: nat, kept: Table, list: seq<CacheKey>, i: nat, lost: set<CacheKey>)
    requires Filed(dir, kept) && R.UsedBelow(dir, nextId) && i <= |list|
    ensures RS.NamesBelow(Restored(kept, list, i, lost), nextId)
  {
    forall k | k in kept
      ensures kept[k].value.name.id < nextId
    {
      assert Listed(dir.durable, kept[k].value);
    }
  }

  lemma RevivedOneMore(goal: Slots, m: Slots, m': Slots, e: Entry, lost: set<CacheKey>)
    requires Revived(goal, m) && S.PutOver(m, m', e.key, e, e.charge, lost) && e.key in goal && goal[e.key].value == e
    ensures Revived(goal, m')
  {
  }

  /** The memory table takes the room and has the order of the same keys in the goal. */
  lemma SameOrderAsGoal(goal: Slots, m: Slots, kept: Table, list: seq<CacheKey>, i: nat, lost: set<CacheKey>,
                        d: S.Shelf<CacheKey, RecordInfo<Bytes>>, gone: set<CacheKey>)
    requires i <= |list| && InTable(kept, list) && Progress(kept, list, i, lost, d) && Agree(m, d.slots)
    requires Revived(goal, m) && Labelled(m)
    requires forall k :: k in goal ==> k in kept && goal[k].stamp == kept[k].stamp
                                       && goal[k].weight == goal[k].value.charge
    ensures m.Keys <= goal.Keys && SameOrder(m - gone, Part(goal, m.Keys - gone))
  {
    hide Elements;
    forall k | k in m
      ensures k in goal && m[k].weight == goal[k].weight && d.slots[k].stamp == goal[k].stamp
    {
      assert LabelledAt(m[k], k);
    }
  }

  /** One restored entry is one turn. */
  lemma TurnTaken(c: Config, goal: Slots, m: Slots, m': Slots, e: Entry, gone: set<CacheKey>)
    requires m.Keys <= goal.Keys && e.key in goal && goal[e.key].weight == e.charge
    requires SameOrder(m - Conflicting(m.Keys, e.key), Part(goal, m.Keys - Conflicting(m.Keys, e.key)))
    requires S.PutOver(m, m', e.key, e, e.charge, gone) && GivesUp(c, m, e, gone)
    ensures exists evicted :: Turn(c, goal, e.key, m.Keys, evicted, m'.Keys)
  {
    hide IsShortestPrefix, Conflicting, SameOrder;
    var conflicting := Conflicting(m.Keys, e.key);
    var evicted :| IsShortestPrefix(m - conflicting, evicted, RoomFor(c, e)) && gone == conflicting + evicted;
    SameOrderSameVictims(m - conflicting, Part(goal, m.Keys - conflicting), evicted, RoomFor(c, e));
    assert Turn(c, goal, e.key, m.Keys, evicted, m'.Keys);
  }

  /** What recovery has to work with after the first pass. */
  ghost predicate Ready(c: DiskConfig, crc: Bytes -> U32, dir: Dir, kept: Table, list: seq<CacheKey>) {
    && Filed(dir, kept) && Revivable(c, crc, dir.files, kept) && S.Weighty(kept) && S.StampsUpTo(kept, U64_MAX)
    && OldestFirst(kept, list) && Elements(list) == kept.Keys && InTable(kept, list)
    && |kept| <= c.maxDiskFiles && Weight(kept) <= c.maxDiskBytes
  }

  /** Memory, table and directory fit together. */
  ghost predicate Consistent(c: DiskConfig, crc: Bytes -> U32, files: map<nat, File>, m: Slots,
                             d: S.Shelf<CacheKey, RecordInfo<Bytes>>) {
    S.Valid(d, DiskLimits(c)) && Agree(m, d.slots) && Told(c, crc, files, m, d.slots)
  }

  ghost predicate InTable<K(!new), V>(kept: map<K, V>, list: seq<K>) {
    forall j :: 0 <= j < |list| ==> list[j] in kept
  }

  /** Progress of the restoring loop: the table holds the first `i` records but the lost
      ones, and has seen the number of the last. */
  ghost predicate Progress<K(!new), W>(kept: map<K, Slot<W>>, list: seq<K>, i: nat, lost: set<K>, d: S.Shelf<K, W>)
    requires i <= |list| && InTable(kept, list)
  {
    && d.slots == Restored(kept, list, i, lost) && lost <= Elements(list[..i])
    && d.clock == (if i == 0 then 0 else kept[list[i - 1]].stamp)
  }

  /** The number of the last record restored. */
  ghost function Reached<K(!new), W>(kept: map<K, Slot<W>>, list: seq<K>): nat {
    if list != [] && list[|list| - 1] in kept then kept[list[|list| - 1]].stamp else 0
  }

  /** The names of the lost records have been unlinked. */
  ghost predicate Swept<K(!new), G>(before: Dir, kept: map<K, Slot<RecordInfo<G>>>, lost: set<K>, gone: seq<Name>,
                                    dir: Dir) {
    dir == before.(pending := R.Unlinks(gone)) && Elements(gone) == NameSet(kept, lost)
  }

  /** Memory holds revived entries, those that inserting the first `i` of the list leaves. */
  ghost predicate Filling(c: Config, goal: Slots, list: seq<CacheKey>, i: nat, m: Slots) {
    i <= |list| && Revived(goal, m) && Replayed(c, goal, list, i, m.Keys)
  }

  /** The restoring loop of `scan_root`. */
  method RestoreAll(root: R.Root, memory: M.MemoryCache, index: DiskIndex<CacheKey, Bytes>, c: DiskConfig,
                    crc: Bytes -> U32,
                    list: seq<CacheKey>, records: Table, now: Duration, wall: WallTime, ghost kept: Table)
    returns (ghost lost: set<CacheKey>, ghost gone: seq<Name>)
    requires ValidDiskConfig(c) && memory.Valid() && memory.config == c.memory && memory.State() == EMPTY
    requires index.Indexed() && index.Shelf() == S.Shelf(map[], 0, 0)
    requires root.Valid() && Ready(c, crc, root.dir, kept, list) && Sub(kept, records)
    modifies root, memory, memory.store, index
    ensures memory.Valid() && root.Valid() && index.Indexed()
    ensures Consistent(c, crc, root.dir.files, memory.store.slots, index.Shelf())
            && root.dir.files == old(root.dir).files
    ensures InTable(kept, list) && Progress(kept, list, |list|, lost, index.Shelf())
            && Swept(old(root.dir), kept, lost, gone, root.dir)
    ensures Filling(c.memory, Goal(c, crc, root.dir.files, kept, memory.identity, now, wall), list, |list|,
                    memory.store.slots)
    ensures root.trail == old(root.trail) + TrailOf(old(root.dir), R.Unlinks(gone))
  {
    ReadyTable(c, crc, root.dir, kept, list);
    R.NoUnlinks(root.dir);
    hide TrailOf, S.Valid, Told, Agree, Inv, Accountable, T.Exact, Carried, R.UsedBelow, R.Unlinks, Elements, NameSet,
         Ready, InTable, Consistent;
    hide Goal, Sub, Progress, Swept, Filling, Weight, OldestFirst, Filed;
    ghost var before := root.dir;
    lost, gone := {}, [];
    RS.FiledQuiet(before, kept);
    StartRestoring(c, crc, before, Goal(c, crc, before.files, kept, memory.identity, now, wall), kept, list);
    for i := 0 to |list|
      invariant memory.Valid() && root.Valid() && index.Indexed()
      invariant root.dir.files == before.files && Consistent(c, crc, before.files, memory.store.slots, index.Shelf())
      invariant Progress(kept, list, i, lost, index.Shelf()) && Swept(before, kept, lost, gone, root.dir)
      invariant Filling(c.memory, Goal(c, crc, before.files, kept, memory.identity, now, wall), list, i,
                        memory.store.slots)
      invariant root.trail == old(root.trail) + TrailOf(before, R.Unlinks(gone))
    {
      lost, gone := RestoreNext(root, memory, index, c, crc, list, i, records, now, wall, kept, before, old(root.trail),
                                lost, gone);
    }
  }

  /** One turn of the loop. */
  method RestoreNext(root: R.Root, memory: M.MemoryCache, index: DiskIndex<CacheKey, Bytes>, c: DiskConfig,
                     crc: Bytes -> U32,
                     list: seq<CacheKey>, i: nat, records: Table, now: Duration, wall: WallTime,
                     ghost kept: Table, ghost before: Dir, ghost start: seq<Dir>, ghost lost: set<CacheKey>,
                     ghost gone: seq<Name>)
    returns (ghost lost': set<CacheKey>, ghost gone': seq<Name>)
    requires ValidDiskConfig(c) && memory.Valid() && memory.config == c.memory && root.Valid() && index.Indexed()
    requires Ready(c, crc, before, kept, list) && Sub(kept, records) && i < |list| && InTable(kept, list)
    requires root.dir.files == before.files && Consistent(c, crc, before.files, memory.store.slots, index.Shelf())
    requires Progress(kept, list, i, lost, index.Shelf()) && Swept(before, kept, lost, gone, root.dir)
    requires Filling(c.memory, Goal(c, crc, before.files, kept, memory.identity, now, wall), list, i,
                     memory.store.slots)
    requires root.trail == start + TrailOf(before, R.Unlinks(gone))
    modifies root, memory, memory.store, index
    ensures memory.Valid() && root.Valid() && index.Indexed()
    ensures root.dir.files == before.files && Consistent(c, crc, before.files, memory.store.slots, index.Shelf())
    ensures Progress(kept, list, i + 1, lost', index.Shelf()) && Swept(before, kept, lost', gone', root.dir)
    ensures Filling(c.memory, Goal(c, crc, before.files, kept, memory.identity, now, wall), list, i + 1,
                    memory.store.slots)
    ensures root.trail == start + TrailOf(before, R.Unlinks(gone'))
  {
    hide TrailOf, S.Valid, Told, ToldAt, Agree, Inv, Accountable, T.Exact, Carried, R.UsedBelow, R.Unlinks, Elements,
         NameSet, Ready, InTable;
    hide ImageAt, Revive, Goal, SizedEntry, Fits, GivesUp, S.PutOver, Sub, Progress, Filling, Labelled, Weight,
         OldestFirst, Filed, RS.NamesBelow;
    ReadyTable(c, crc, before, kept, list);
    RS.FiledQuiet(before, kept);
    ghost var goal := Goal(c, crc, before.files, kept, memory.identity, now, wall);
    ghost var m, d := memory.store.slots, index.Shelf();
    StillBelow(before, kept, lost, gone, root.dir, root.nextId);
    NextRecord(c, crc, before, root.nextId, kept, records, list, i, memory.identity, now, wall);
    NextNumber(kept, list, i, lost, d, c.maxDiskFiles, c.maxDiskBytes);
    NextNames(before, root.nextId, kept, list, i, lost, d);
    D.LabelsIn(c.memory, memory.State());
    D.SameKeys(m, d.slots);
    var slot := records[list[i]];
    var e := Revive(c, crc, root.dir.files, slot, memory.identity, now, wall);
    ghost var more, extra := RestoreOne(root, memory, index, c, crc, slot, e);
    ProgressMore(kept, list, i, lost, d, index.Shelf(), more);
    SweptMore(before, kept, list, i, lost, d, gone, root.dir, more, extra);
    FillingMore(c, crc, before.files, kept, goal, list, i, lost, d, m, memory.store.slots, e, more, memory.identity,
                now, wall);
    UnlinksTrail(before, gone, extra);
    lost', gone' := lost + more, gone + extra;
  }

  lemma UnlinksTrail(before: Dir, gone: seq<Name>, extra: seq<Name>)
    requires before.pending == []
    ensures TrailOf(before, R.Unlinks(gone + extra)) == TrailOf(before, R.Unlinks(gone))
              + TrailOf(before.(pending := R.Unlinks(gone)), R.Unlinks(extra))
  {
    hide TrailOf;
    assert R.Unlinks(gone + extra) == R.Unlinks(gone) + R.Unlinks(extra);
    assert before.pending + R.Unlinks(gone) == R.Unlinks(gone);
    TrailJoin(before, R.Unlinks(gone), R.Unlinks(extra));
  }

  lemma ReadyTable(c: DiskConfig, crc: Bytes -> U32, dir: Dir, kept: Table, list: seq<CacheKey>)
    requires Ready(c, crc, dir, kept, list)
    ensures InTable(kept, list) && OldestFirst(kept, list) && |kept| <= c.maxDiskFiles && Weight(kept) <= c.maxDiskBytes
            && Filed(dir, kept)
  {
  }

  lemma StartRestoring(c: DiskConfig, crc: Bytes -> U32, before: Dir, goal: Slots, kept: Table, list: seq<CacheKey>)
    requires before.pending == [] && InTable(kept, list)
    ensures Consistent(c, crc, before.files, map[], S.Shelf(map[], 0, 0))
    ensures Progress(kept, list, 0, {}, S.Shelf(map[], 0, 0)) && Swept(before, kept, {}, [], before)
            && Filling(c.memory, goal, list, 0, map[])
  {
    NothingRestored(kept, list);
    NothingGone(before.durable);
    EmptyNames(kept);
    hide R.Unlinks, NameSet, ToldAt, Restored;
  }

  lemma EmptyNames<K, G>(d: map<K, Slot<RecordInfo<G>>>)
    ensures Elements<Name>([]) == NameSet(d, {})
  {
  }

  lemma StillBelow<K(!new), G>(before: Dir, kept: map<K, Slot<RecordInfo<G>>>, lost: set<K>, gone: seq<Name>, dir: Dir,
                               nextId: nat)
    requires before.pending == [] && Swept(before, kept, lost, gone, dir) && R.UsedBelow(dir, nextId)
    ensures R.UsedBelow(before, nextId)
  {
  }

  lemma NextRecord(c: DiskConfig, crc: Bytes -> U32, before: Dir, nextId: nat, kept: Table, records: Table,
                   list: seq<CacheKey>, i: nat,
                   owner: nat, now: Duration, wall: WallTime)
    requires Ready(c, crc, before, kept, list) && Sub(kept, records) && R.UsedBelow(before, nextId) && i < |list|
    ensures list[i] in kept && list[i] in records && records[list[i]] == kept[list[i]]
            && Readable(c, crc, before.files, kept[list[i]].value.inode)
    ensures var slot := kept[list[i]];
            var e := Revive(c, crc, before.files, slot, owner, now, wall);
            && e.key == list[i] && SizedEntry(c.memory, e) && ToldAt(c, crc, before.files, slot, e)
            && slot.value.name.id < nextId && 0 < slot.stamp <= U64_MAX && 2 <= slot.weight
            && e.key in Goal(c, crc, before.files, kept, owner, now, wall)
            && Goal(c, crc, before.files, kept, owner, now, wall)[e.key] == Slot(e, slot.stamp, e.charge)
  {
    hide Revivable, Goal, ToldAt, Revive, SizedEntry, Weight, Elements, OldestFirst, R.UsedBelow, Filed;
    KeptRecord(c, crc, before, nextId, kept, list[i], owner, now, wall);
  }

  lemma NextNumber<K(!new), W>(kept: map<K, Slot<W>>, list: seq<K>, i: nat, lost: set<K>, d: S.Shelf<K, W>,
                               maxCount: nat, maxBytes: nat)
    requires InTable(kept, list) && OldestFirst(kept, list) && i < |list| && |kept| <= maxCount
             && Weight(kept) <= maxBytes
    requires Progress(kept, list, i, lost, d) && 0 < kept[list[i]].stamp
    ensures list[i] !in d.slots && d.clock < kept[list[i]].stamp
    ensures Fits(d.slots, Room(kept[list[i]].weight, maxCount, maxBytes))
  {
    hide Weight, Fits, Restored, Elements;
    NextRestored(kept, list, i, lost, maxCount, maxBytes);
  }

  lemma NextNames(dir: Dir, nextId: nat, kept: Table, list: seq<CacheKey>, i: nat, lost: set<CacheKey>,
                  d: S.Shelf<CacheKey, RecordInfo<Bytes>>)
    requires InTable(kept, list) && Filed(dir, kept) && R.UsedBelow(dir, nextId) && i <= |list|
             && Progress(kept, list, i, lost, d)
    ensures RS.NamesBelow(d.slots, nextId)
  {
    hide Filed, R.UsedBelow, Restored, Elements;
    RestoredBelow(dir, nextId, kept, list, i, lost);
  }

  lemma ProgressMore<K(!new), W>(kept: map<K, Slot<W>>, list: seq<K>, i: nat, lost: set<K>, d: S.Shelf<K, W>,
                                 d': S.Shelf<K, W>, more: set<K>)
    requires InTable(kept, list) && OldestFirst(kept, list) && i < |list| && Progress(kept, list, i, lost, d)
             && more <= d.slots.Keys
    requires d'.slots == d.slots[list[i] := kept[list[i]]] - more && d'.clock == kept[list[i]].stamp
    ensures Progress(kept, list, i + 1, lost + more, d')
  {
    hide Restored, Elements, OldestFirst;
    OneMoreRestored(kept, list, i, lost, more);
  }

  lemma SweptMore<K(!new), G>(before: Dir, kept: map<K, Slot<RecordInfo<G>>>, list: seq<K>, i: nat, lost: set<K>,
                              d: S.Shelf<K, RecordInfo<G>>,
                              gone: seq<Name>, dir: Dir, more: set<K>, extra: seq<Name>)
    requires i <= |list| && InTable(kept, list) && Progress(kept, list, i, lost, d) && more <= d.slots.Keys
    requires Swept(before, kept, lost, gone, before.(pending := R.Unlinks(gone)))
    requires dir == before.(pending := R.Unlinks(gone) + R.Unlinks(extra)) && Elements(extra) == NameSet(d.slots, more)
    ensures Swept(before, kept, lost + more, gone + extra, dir)
  {
    assert R.Unlinks(gone + extra) == R.Unlinks(gone) + R.Unlinks(extra);
    ElementsOfAppend(gone, extra);
    assert forall k :: k in more ==> k in kept && d.slots[k] == kept[k];
    NamesOfTwo(kept, lost, more);
    assert NameSet(d.slots, more) == NameSet(kept, more);
  }

  lemma NamesOfTwo<K, G>(kept: map<K, Slot<RecordInfo<G>>>, a: set<K>, b: set<K>)
    ensures NameSet(kept, a + b) == NameSet(kept, a) + NameSet(kept, b)
  {
  }

  lemma FillingMore(c: DiskConfig, crc: Bytes -> U32, files: map<nat, File>, kept: Table, goal: Slots,
                    list: seq<CacheKey>, i: nat, lost: set<CacheKey>, d: S.Shelf<CacheKey, RecordInfo<Bytes>>,
                    m: Slots, m': Slots, e: Entry, more: set<CacheKey>, owner: nat, now: Duration, wall: WallTime)
    requires goal == Goal(c, crc, files, kept, owner, now, wall) && Filling(c.memory, goal, list, i, m) && Labelled(m)
    requires i < |list| && e.key == list[i] && e.key in goal && goal[e.key] == Slot(e, goal[e.key].stamp, e.charge)
    requires InTable(kept, list) && Progress(kept, list, i, lost, d) && Agree(m, d.slots)
    requires S.PutOver(m, m', e.key, e, e.charge, more) && GivesUp(c.memory, m, e, more)
    ensures Filling(c.memory, goal, list, i + 1, m')
  {
    RevivedOneMore(goal, m, m', e, more);
    GoalWeights(c, crc, files, kept, owner, now, wall);
    hide Goal, Conflicting, GivesUp, S.PutOver, Labelled, Revived, SameOrder, Progress, Agree, Turn;
    SameOrderAsGoal(goal, m, kept, list, i, lost, d, Conflicting(m.Keys, e.key));
    TurnTaken(c.memory, goal, m, m', e, more);
  }

  lemma GoalWeights(c: DiskConfig, crc: Bytes -> U32, files: map<nat, File>, kept: Table, owner: nat, now: Duration,
                    wall: WallTime)
    ensures var goal := Goal(c, crc, files, kept, owner, now, wall);
            forall k :: k in goal ==> k in kept && goal[k].stamp == kept[k].stamp
                                      && goal[k].weight == goal[k].value.charge
  {
    hide ImageAt;
  }

  // ---------------------------------------------------------------- opening

  /** What the first half of opening makes of a directory. */
  ghost predicate Gathered(c: DiskConfig, crc: Bytes -> U32, dir: Dir, order: seq<Name>, s: Scan<CacheKey>, kept: Table,
                           list: seq<CacheKey>) {
    && Scanned(dir.durable, MarksOf(c, crc, dir.files), order, order, s)
    && Trimmed(TableOf(c, crc, dir.files, s.found), kept, list, c.maxDiskFiles, c.maxDiskBytes)
  }

  /** What opening makes of a directory: the newest admissible record of each key, without the
      shortest oldest prefix beyond the quotas, and of the rest exactly what the memory cache
      holds after inserting them one by one. */
  ghost predicate Opened(c: DiskConfig, crc: Bytes -> U32, dir: Dir, order: seq<Name>, s: Scan<CacheKey>, kept: Table,
                         list: seq<CacheKey>,
                         owner: nat, now: Duration, wall: WallTime, m: Slots, records: Table) {
    var goal := Goal(c, crc, dir.files, kept, owner, now, wall);
    && Gathered(c, crc, dir, order, s, kept, list)
    && Sub(records, kept) && Revived(goal, m) && m.Keys == records.Keys
    && Replayed(c.memory, goal, list, |list|, records.Keys)
  }

  /** The entries to be restored are those of the records kept. */
  lemma OpenedGoal(c: DiskConfig, crc: Bytes -> U32, dir: Dir, order: seq<Name>, s: Scan<CacheKey>, kept: Table,
                   list: seq<CacheKey>, owner: nat, now: Duration, wall: WallTime, m: Slots, records: Table)
    requires Opened(c, crc, dir, order, s, kept, list, owner, now, wall, m, records)
    ensures var goal := Goal(c, crc, dir.files, kept, owner, now, wall);
            goal.Keys == kept.Keys && OldestFirst(goal, list) && Elements(list) == goal.Keys
  {
    hide Scanned, MarksOf, IsShortestPrefix, ImageAt, Replayed, Elements;
    assert forall k :: k in kept ==> k in TableOf(c, crc, dir.files, s.found);
  }

  /** Without conflicting schemas: the records opening ends with are those kept but the shortest
      oldest prefix beyond the limits of memory, so all of them if all fit. */
  lemma OpenedOutcome(c: DiskConfig, crc: Bytes -> U32, dir: Dir, order: seq<Name>, s: Scan<CacheKey>, kept: Table,
                      list: seq<CacheKey>, owner: nat, now: Duration, wall: WallTime, m: Slots, records: Table)
    requires Opened(c, crc, dir, order, s, kept, list, owner, now, wall, m, records) && OneSchema(kept.Keys)
    ensures var goal := Goal(c, crc, dir.files, kept, owner, now, wall);
            && goal.Keys == kept.Keys && Outcome(c.memory, goal, records.Keys)
            && (Roomy(c.memory, goal) ==> records == kept)
  {
    hide Gathered, Goal, Revived, OneSchema, OldestFirst, Elements, Outcome, Replayed;
    var goal := Goal(c, crc, dir.files, kept, owner, now, wall);
    OpenedGoal(c, crc, dir, order, s, kept, list, owner, now, wall, m, records);
    ReplayOutcome(c.memory, goal, list, |list|, records.Keys);
    assert list[..|list|] == list && Part(goal, goal.Keys) == goal;
    if Roomy(c.memory, goal) {
      RoomyKeepsAll(c.memory, goal, records.Keys);
      assert records == kept;
    }
  }

  /** What becomes of a key in opening. A record of it at least as new as `stamp` is found exactly
      if one passes the scan; the record found is kept exactly if it and all newer ones found meet
      the quotas; and what is kept is there in the end exactly if its entry and all newer ones fit
      into memory, unless schemas conflict. */
  ghost predicate Decided(c: DiskConfig, crc: Bytes -> U32, dir: Dir, order: seq<Name>, s: Scan<CacheKey>, kept: Table,
                          owner: nat, now: Duration, wall: WallTime, records: Table, k: CacheKey, stamp: nat) {
    var found := TableOf(c, crc, dir.files, s.found);
    var goal := Goal(c, crc, dir.files, kept, owner, now, wall);
    && (k in found && stamp <= found[k].stamp <==> Shows(dir.durable, MarksOf(c, crc, dir.files), order, k, stamp))
    && (k in kept <==> k in found && Fits(Since(found, k), Limit(c.maxDiskFiles, c.maxDiskBytes)))
    && (k in records ==> k in kept && records[k] == found[k])
    && (k in kept <==> k in goal)
    && (k in goal && OneSchema(kept.Keys) ==>
          (k in records <==> Fits(Since(goal, k), Limit(c.memory.maxEntries, c.memory.maxTotalBytes))))
  }

  lemma OpenedDecides(c: DiskConfig, crc: Bytes -> U32, dir: Dir, order: seq<Name>, s: Scan<CacheKey>, kept: Table,
                      list: seq<CacheKey>, owner: nat, now: Duration, wall: WallTime, m: Slots, records: Table,
                      k: CacheKey, stamp: nat)
    requires Recoverable(c, crc, dir) && Elements(order) == dir.durable.Keys
    requires Opened(c, crc, dir, order, s, kept, list, owner, now, wall, m, records)
    ensures Decided(c, crc, dir, order, s, kept, owner, now, wall, records, k, stamp)
  {
    hide Recoverable, Elements, Scanned, MarksOf, TableOf, Goal, Revived, Replayed, OneSchema, Fits, Shows, Since,
         OldestFirst, Filed, Distinct, Revivable, S.Weighty, S.StampsUpTo, Outcome, IsShortestPrefix;
    var found := TableOf(c, crc, dir.files, s.found);
    FoundTable(c, crc, dir, order, s);
    FoundIffShown(dir.durable, MarksOf(c, crc, dir.files), order, s, k, stamp);
    FoundStamp(c, crc, dir.files, s, k);
    OpenedGoal(c, crc, dir, order, s, kept, list, owner, now, wall, m, records);
    if k in found {
      StaysIff(found, found.Keys - kept.Keys, k, c.maxDiskFiles, c.maxDiskBytes);
    }
    if k in kept && OneSchema(kept.Keys) {
      OpenedOutcome(c, crc, dir, order, s, kept, list, owner, now, wall, m, records);
      OutcomeStays(c.memory, Goal(c, crc, dir.files, kept, owner, now, wall), records.Keys, k);
    }
  }

  /** A record that passes the scan is there in the end, or a newer one of its key, if everything
      found meets the quotas and fits into memory. */
  lemma ShownIsThere(c: DiskConfig, crc: Bytes -> U32, dir: Dir, order: seq<Name>, s: Scan<CacheKey>, kept: Table,
                     list: seq<CacheKey>, owner: nat, now: Duration, wall: WallTime, m: Slots, records: Table,
                     k: CacheKey, stamp: nat)
    requires Recoverable(c, crc, dir) && Elements(order) == dir.durable.Keys
    requires Opened(c, crc, dir, order, s, kept, list, owner, now, wall, m, records)
    requires Shows(dir.durable, MarksOf(c, crc, dir.files), order, k, stamp)
    requires Fits(TableOf(c, crc, dir.files, s.found), Limit(c.maxDiskFiles, c.maxDiskBytes))
    requires Roomy(c.memory, Goal(c, crc, dir.files, kept, owner, now, wall))
    ensures k in records && stamp <= records[k].stamp
  {
    hide Recoverable, Elements, Opened, MarksOf, TableOf, Goal, OneSchema, Fits, Shows, Since;
    OpenedDecides(c, crc, dir, order, s, kept, list, owner, now, wall, m, records, k, stamp);
    var found, goal := TableOf(c, crc, dir.files, s.found), Goal(c, crc, dir.files, kept, owner, now, wall);
    SinceFits(found, k, c.maxDiskFiles, c.maxDiskBytes);
    WithinIsFits(goal, c.memory.maxEntries, c.memory.maxTotalBytes);
    SinceFits(goal, k, c.memory.maxEntries, c.memory.maxTotalBytes);
    KeptSchemas(c, crc, dir, order, s, kept, list, owner, now, wall, m, records);
  }

  lemma SinceFits<K(!new), V>(t: map<K, Slot<V>>, k: K, maxCount: nat, maxWeight: nat)
    requires k in t && Fits(t, Limit(maxCount, maxWeight))
    ensures Fits(Since(t, k), Limit(maxCount, maxWeight))
  {
    PartFits(Since(t, k), t, maxCount, maxWeight);
  }

  lemma KeptSchemas(c: DiskConfig, crc: Bytes -> U32, dir: Dir, order: seq<Name>, s: Scan<CacheKey>, kept: Table,
                    list: seq<CacheKey>, owner: nat, now: Duration, wall: WallTime, m: Slots, records: Table)
    requires Opened(c, crc, dir, order, s, kept, list, owner, now, wall, m, records)
    requires OneSchema(Goal(c, crc, dir.files, kept, owner, now, wall).Keys)
    ensures OneSchema(kept.Keys)
  {
    hide Opened, Goal, OneSchema;
    OpenedGoal(c, crc, dir, order, s, kept, list, owner, now, wall, m, records);
  }

  /** Directory and order of enumeration determine what opening ends with. */
  lemma OpenedDetermined(c: DiskConfig, crc: Bytes -> U32, dir: Dir, order: seq<Name>, owner: nat, now: Duration,
                         wall: WallTime, s: Scan<CacheKey>, kept: Table, list: seq<CacheKey>, m: Slots, records: Table,
                         s': Scan<CacheKey>, kept': Table, list': seq<CacheKey>, m': Slots, records': Table)
    requires Recoverable(c, crc, dir) && Elements(order) == dir.durable.Keys
    requires Opened(c, crc, dir, order, s, kept, list, owner, now, wall, m, records)
    requires Opened(c, crc, dir, order, s', kept', list', owner, now, wall, m', records')
    ensures s == s' && kept == kept' && list == list' && records == records'
  {
    hide Recoverable, Elements, Scanned, MarksOf, TableOf, Goal, Revived, Replayed, OldestFirst, IsShortestPrefix, Sub;
    UnsharedOf(c, crc, dir);
    ScanDetermined(dir.durable, MarksOf(c, crc, dir.files), order, s, s');
    TrimDetermined(TableOf(c, crc, dir.files, s.found), kept, list, kept', list', c.maxDiskFiles, c.maxDiskBytes);
    ReplayDetermined(c.memory, Goal(c, crc, dir.files, kept, owner, now, wall), list, |list|, records.Keys,
                     records'.Keys);
    SameSub(records, records', kept);
  }

  lemma TrimDetermined<K(!new), V>(table: map<K, Slot<V>>, kept: map<K, Slot<V>>, list: seq<K>, kept': map<K, Slot<V>>,
                                   list': seq<K>, maxCount: nat, maxBytes: nat)
    requires Trimmed(table, kept, list, maxCount, maxBytes) && Trimmed(table, kept', list', maxCount, maxBytes)
    ensures kept == kept' && list == list'
  {
    hide IsShortestPrefix, OldestFirst, Elements;
    ShortestPrefixUnique(table, table.Keys - kept.Keys, table.Keys - kept'.Keys, Limit(maxCount, maxBytes));
    assert kept.Keys == table.Keys - (table.Keys - kept.Keys) && kept'.Keys == table.Keys - (table.Keys - kept'.Keys);
    SameSub(kept, kept', table);
    OldestFirstUnique(kept, list, list');
  }

  lemma SameSub<K, V>(a: map<K, V>, b: map<K, V>, whole: map<K, V>)
    requires Sub(a, whole) && Sub(b, whole) && a.Keys == b.Keys
    ensures a == b
  {
  }

  lemma FoundStamp(c: DiskConfig, crc: Bytes -> U32, files: map<nat, File>, s: Scan<CacheKey>, k: CacheKey)
    requires TableOf(c, crc, files, s.found).Keys == s.found.Keys
    ensures k in s.found ==> TableOf(c, crc, files, s.found)[k].stamp == s.found[k].stamp
  {
    hide ImageAt;
  }

  lemma OutcomeStays(c: Config, goal: Slots, resident: set<CacheKey>, k: CacheKey)
    requires Outcome(c, goal, resident) && k in goal
    ensures k in resident <==> Fits(Since(goal, k), Limit(c.maxEntries, c.maxTotalBytes))
  {
    hide IsShortestPrefix;
    StaysIff(goal, goal.Keys - resident, k, c.maxEntries, c.maxTotalBytes);
  }

  /** The first half of `scan_root`: reads the directory and meets the quotas. */
  method ReadRoot(root: R.Root, c: DiskConfig, crc: Bytes -> U32, order: seq<Name>)
    returns (table: Table, list: seq<CacheKey>, ghost s: Scan<CacheKey>, ghost kept: Table)
    requires root.Valid() && Recoverable(c, crc, root.dir)
    requires NoRepeats(order) && Elements(order) == root.dir.durable.Keys
    modifies root
    ensures root.Valid() && root.dir.files == old(root.dir).files
    ensures Ready(c, crc, root.dir, kept, list) && Sub(kept, table) && Elements(list) == kept.Keys
            && Filed(root.dir, kept)
    ensures Gathered(c, crc, old(root.dir), order, s, kept, list)
    ensures root.dir.pending == [] && Sub(root.dir.durable, old(root.dir).durable) && old(root.trail) <= root.trail
    ensures Shrinking(root.trail, |old(root.trail)|, root.dir.files, root.dir.durable, old(root.dir).durable)
  {
    hide TrailOf, Shrinking, R.UsedBelow, R.Unlinks, Elements, NameSet, Ready, InTable, Recoverable, NoRepeats;
    hide Sub, Weight, OldestFirst, Filed, Scanned, MarksOf, TableOf, Trimmed, Revivable, Distinct, S.Weighty,
         S.StampsUpTo, Unshared;
    ghost var before := root.dir;
    var found, gone := ScanRoot(root, c, crc, order);
    s := Scan(before.durable - Elements(gone), found);
    FoundTable(c, crc, before, order, s);
    UnsharedOf(c, crc, before);
    table := TableOf(c, crc, root.dir.files, found);
    ghost var extra;
    list, kept, extra := TrimRoot(root, table, c.maxDiskFiles, c.maxDiskBytes, before, gone);
    ReadyAfterTrim(c, crc, root.dir, table, kept, list);
    ReadyTable(c, crc, root.dir, kept, list);
    RS.FiledQuiet(root.dir, kept);
    ReadTrail(before, gone, extra, old(root.trail), root.trail, root.dir);
  }

  /** `scan_root` and `DiskCache::with_clock`. */
  method Open(root: R.Root, c: DiskConfig, crc: Bytes -> U32, owner: nat, order: seq<Name>, now: Duration,
              wall: WallTime)
    returns (cache: D.DiskCache, ghost s: Scan<CacheKey>, ghost kept: Table, ghost list: seq<CacheKey>)
    requires ValidDiskConfig(c) && root.Valid() && Recoverable(c, crc, root.dir)
    requires NoRepeats(order) && Elements(order) == root.dir.durable.Keys
    modifies root
    ensures cache.Valid() && cache.config == c && cache.crc == crc && cache.disk.root == root
            && cache.cache.identity == owner
    ensures Opened(c, crc, old(root.dir), order, s, kept, list, owner, now, wall, cache.cache.store.slots,
                   cache.disk.index.records)
    ensures root.dir.files == old(root.dir).files && cache.disk.index.sequence == Reached(kept, list)
    ensures fresh(cache.cache) && fresh(cache.cache.store) && fresh(cache.cache.board) && fresh(cache.disk.index)
    ensures old(root.trail) <= root.trail
    ensures Shrinking(root.trail, |old(root.trail)|, root.dir.files, root.dir.durable, old(root.dir).durable)
  {
    hide TrailOf, Shrinking, S.Valid, Told, Agree, Inv, T.Exact, Carried, R.UsedBelow, R.Unlinks, Elements, NameSet,
         Ready, InTable, Recoverable, NoRepeats;
    hide Goal, Sub, Progress, Swept, Filling, Weight, OldestFirst, Filed, Scanned, MarksOf, TableOf, Trimmed, Revivable,
         Distinct, S.Weighty, S.StampsUpTo;
    hide Revived, Replayed, Gathered, Accountable, Thinned;
    var table, keys;
    table, keys, s, kept := ReadRoot(root, c, crc, order);
    list := keys;
    ghost var trimmed, first := root.dir, root.trail;
    var memory, index := Refill(root, c, crc, owner, table, keys, now, wall, kept);
    D.SameKeys(memory.store.slots, index.records);
    RefilledTrail(trimmed, old(root.dir).durable, |old(root.trail)|, first, root.trail, root.dir);
    var disk := new RS.RecordStore(root, index);
    cache := new D.DiskCache(c, crc, memory, disk);
  }

  /** The second half of `scan_root`: fills the memory cache and the table, oldest first. */
  method Refill(root: R.Root, c: DiskConfig, crc: Bytes -> U32, owner: nat, table: Table, list: seq<CacheKey>,
                now: Duration, wall: WallTime, ghost kept: Table)
    returns (memory: M.MemoryCache, index: DiskIndex<CacheKey, Bytes>)
    requires ValidDiskConfig(c) && root.Valid() && Ready(c, crc, root.dir, kept, list) && Sub(kept, table)
    requires Elements(list) == kept.Keys && Filed(root.dir, kept)
    modifies root
    ensures fresh(memory) && fresh(memory.store) && fresh(memory.board) && fresh(index)
    ensures memory.Valid() && memory.config == c.memory && memory.identity == owner && index.Indexed() && root.Valid()
    ensures Consistent(c, crc, root.dir.files, memory.store.slots, index.Shelf()) && Filed(root.dir, index.records)
    ensures root.dir.files == old(root.dir).files && Sub(index.records, kept)
    ensures var goal := Goal(c, crc, root.dir.files, kept, owner, now, wall);
            Revived(goal, memory.store.slots) && Replayed(c.memory, goal, list, |list|, memory.store.slots.Keys)
    ensures index.sequence == Reached(kept, list)
    ensures Thinned(old(root.dir), old(root.trail), root.trail, root.dir)
  {
    hide TrailOf, S.Valid, Told, Agree, Inv, T.Exact, Carried, R.UsedBelow, R.Unlinks, Elements, NameSet, Ready,
         InTable, Consistent;
    hide Goal, Sub, Progress, Swept, Filling, Weight, OldestFirst, Filed, Revived, Replayed, Accountable, Thinned;
    ghost var before := root.dir;
    RS.FiledQuiet(before, kept);
    memory := new M.MemoryCache(c.memory, owner);
    index := new DiskIndex<CacheKey, Bytes>();
    ghost var lost, gone := RestoreAll(root, memory, index, c, crc, list, table, now, wall, kept);
    FinishRestoring(c, before, kept, list, lost, gone, index.Shelf(), root.dir);
    FinishFilling(c.memory, Goal(c, crc, before.files, kept, owner, now, wall), list, memory.store.slots);
    ghost var swept := root.dir;
    if root.dir.pending != [] {
      root.Fsync();
    }
    SweptTrail(before, gone, kept, lost, swept, old(root.trail), root.trail, root.dir);
  }

  /** Some names were unlinked one by one and then, if there were any, the root synced. */
  ghost predicate Thinned(before: Dir, start: seq<Dir>, trail: seq<Dir>, dir: Dir) {
    exists gone: seq<Name> ::
      && dir == Dir(before.durable - Elements(gone), [], before.files)
      && (trail == start + TrailOf(before, R.Unlinks(gone)) || trail == start + TrailOf(before, R.Unlinks(gone))
            + [dir])
  }

  lemma SweptTrail(before: Dir, gone: seq<Name>, kept: Table, lost: set<CacheKey>, swept: Dir, start: seq<Dir>,
                   trail: seq<Dir>, dir: Dir)
    requires before.pending == [] && Swept(before, kept, lost, gone, swept)
    requires dir == if swept.pending == [] then swept else Synced(swept)
    requires trail == start + TrailOf(before, R.Unlinks(gone)) + (if swept.pending == [] then [] else [dir])
    ensures Thinned(before, start, trail, dir)
  {
    hide TrailOf, R.Unlinks, Elements;
    SyncedNames(before, gone);
  }

  /** The first half only takes names away. */
  lemma ReadTrail(before: Dir, gone: seq<Name>, extra: seq<Name>, start: seq<Dir>, trail: seq<Dir>, dir: Dir)
    requires before.pending == [] && dir == Dir(before.durable - Elements(gone + extra), [], before.files)
    requires trail == start + TrailOf(before, R.Unlinks(gone))
               + TrailOf(before.(pending := R.Unlinks(gone)), R.Unlinks(extra))
                      + (if gone + extra == [] then [] else [dir])
    ensures Sub(dir.durable, before.durable) && start <= trail
            && Shrinking(trail, |start|, before.files, dir.durable, before.durable)
  {
    hide TrailOf, R.Unlinks, Elements;
    UnlinksTrail(before, gone, extra);
    UnlinksShrunk(before, gone + extra, start, trail, dir);
  }

  lemma UnlinksShrunk(before: Dir, gone: seq<Name>, start: seq<Dir>, trail: seq<Dir>, dir: Dir)
    requires before.pending == [] && dir == Dir(before.durable - Elements(gone), [], before.files)
    requires trail == start + TrailOf(before, R.Unlinks(gone)) || trail == start + TrailOf(before, R.Unlinks(gone))
               + [dir]
    ensures Sub(dir.durable, before.durable) && Shrinking(trail, |start|, before.files, dir.durable, before.durable)
  {
    hide TrailOf, R.Unlinks, Elements;
    assert gone[..|gone|] == gone;
    R.UnlinksShrink(before, gone, |gone|);
    assert Shrinking(start, |start|, before.files, dir.durable, before.durable);
    ShrinkingJoin(start, TrailOf(before, R.Unlinks(gone)), |start|, before.files, dir.durable, before.durable);
    assert Shrinking([dir], 0, before.files, dir.durable, before.durable);
    ShrinkingJoin(start + TrailOf(before, R.Unlinks(gone)), [dir], |start|, before.files, dir.durable, before.durable);
  }

  /** So does the second half. */
  lemma RefilledTrail(trimmed: Dir, all: map<Name, nat>, from: nat, first: seq<Dir>, trail: seq<Dir>, dir: Dir)
    requires trimmed.pending == [] && Thinned(trimmed, first, trail, dir) && Sub(trimmed.durable, all)
             && from <= |first|
    requires Shrinking(first, from, trimmed.files, trimmed.durable, all)
    ensures first <= trail && Shrinking(trail, from, trimmed.files, dir.durable, all)
  {
    hide TrailOf, R.Unlinks, Elements, Shrinking, Sub;
    var gone: seq<Name> :|
      && dir == Dir(trimmed.durable - Elements(gone), [], trimmed.files)
      && (trail == first + TrailOf(trimmed, R.Unlinks(gone)) || trail == first + TrailOf(trimmed, R.Unlinks(gone))
            + [dir]);
    UnlinksShrunk(trimmed, gone, first, trail, dir);
    SubSelfNames(all);
    SubSelfNames(dir.durable);
    ShrinkingWider(first, from, trimmed.files, trimmed.durable, all, dir.durable, all);
    ShrinkingWider(trail, |first|, trimmed.files, dir.durable, trimmed.durable, dir.durable, all);
    ShrinkingOn(first, trail, from, trimmed.files, dir.durable, all);
  }

  lemma SubSelfNames(names: map<Name, nat>)
    ensures Sub(names, names)
  {
  }

  lemma ShrinkingOn(first: seq<Dir>, trail: seq<Dir>, from: nat, files: map<nat, File>, lo: map<Name, nat>,
                    hi: map<Name, nat>)
    requires first <= trail && from <= |first| && Shrinking(first, from, files, lo, hi)
             && Shrinking(trail, |first|, files, lo, hi)
    ensures Shrinking(trail, from, files, lo, hi)
  {
    hide Between;
    forall j | from <= j < |first|
      ensures trail[j] == first[j]
    {
    }
  }

  lemma ReadyAfterTrim(c: DiskConfig, crc: Bytes -> U32, dir: Dir, table: Table, kept: Table, list: seq<CacheKey>)
    requires Filed(dir, kept) && Trimmed(table, kept, list, c.maxDiskFiles, c.maxDiskBytes)
    requires Revivable(c, crc, dir.files, table) && S.Weighty(table) && S.StampsUpTo(table, U64_MAX)
    ensures Ready(c, crc, dir, kept, list) && Sub(kept, table) && Elements(list) == kept.Keys
  {
    hide RevivableAt, Filed, Weight, IsShortestPrefix;
    TrimmedFits(table, kept, list, c.maxDiskFiles, c.maxDiskBytes);
  }

  lemma FinishRestoring(c: DiskConfig, before: Dir, kept: Table, list: seq<CacheKey>, lost: set<CacheKey>,
                        gone: seq<Name>,
                        d: S.Shelf<CacheKey, RecordInfo<Bytes>>, dir: Dir)
    requires Filed(before, kept) && InTable(kept, list) && Elements(list) == kept.Keys
    requires Progress(kept, list, |list|, lost, d) && Swept(before, kept, lost, gone, dir)
    ensures d.slots == kept - lost && Filed(Synced(dir), d.slots) && (dir.pending == [] ==> Filed(dir, d.slots))
    ensures Sub(d.slots, kept) && d.clock == Reached(kept, list)
  {
    AllRestored(kept, list, lost);
    assert [] + gone == gone;
    assert before.durable - Elements<Name>([]) == before.durable;
    SyncedCut(before, [], gone, kept, lost);
    hide Filed, Elements, NameSet;
  }

  lemma FinishFilling(c: Config, goal: Slots, list: seq<CacheKey>, m: Slots)
    requires Filling(c, goal, list, |list|, m)
    ensures Revived(goal, m) && Replayed(c, goal, list, |list|, m.Keys)
  {
    hide Revived, Replayed;
  }
}
