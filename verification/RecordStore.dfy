/** The disk half of the cache: the record table of `State` and the cache root, changed
    together. Filesystem calls are taken to succeed. Generic in keys and tags. */
module RecordStore {
  import opened Prelude
  import opened Sets
  import opened Lru
  import opened Directory
  import opened DiskIndex
  import opened Ledger
  import opened Crashes
  import R = Root
  import S = Shelf
  import T = TagIndex

  type Table<K, G> = map<K, Slot<RecordInfo<G>>>

  class RecordStore<K(==, !new), G(==, !new)> {
    const root: R.Root
    const index: DiskIndex<K, G>

    constructor (root: R.Root, index: DiskIndex<K, G>)
      ensures this.root == root && this.index == index
    {
      this.root := root;
      this.index := index;
    }

    /** The table, the tag index and the directory say the same. */
    ghost predicate Valid()
      reads root, index
    {
      root.Valid() && index.Indexed() && Filed(root.dir, index.records)
    }

    /** Unlinks the records of some keys and forgets them, then syncs the root if there were
        any: the removal loops of `store`, `purge_*` and `reconcile_*`. */
    method Erase(keys: set<K>)
      requires Valid() && keys <= index.records.Keys
      requires index.bytesUsed == Weight(index.records)
      modifies root, index`records, index`tags, index`bytesUsed
      ensures Valid() && index.Shelf() == S.Drop(old(index.Shelf()), keys)
      ensures root.dir.files == old(root.dir.files) && root.nextId == old(root.nextId)
      ensures old(root.trail) <= root.trail
      ensures SafeSince(root.trail, |old(root.trail)|, root.dir.files, old(index.records) - keys, old(index.records),
                        old(index.records))
    {
      hide S.Drop, R.Survives, R.Whole, Filed, T.Exact, Elements, NameSet, R.Unlinks, Weight, SafeSince, ContentsOf,
           Carried;
      ghost var before, h, doomed := root.dir, index.Shelf(), NameSet(index.records, keys);
      ghost var gone: seq<Name>, done: set<K> := [], {};
      var rest := keys;
      FiledWhole(before, h.slots);
      EraseNothing(h, before);
      while rest != {}
        invariant root.Valid() && index.Indexed() && root.nextId == old(root.nextId)
        invariant done + rest == keys && done !! rest && index.sequence == h.clock
        invariant Erasing(h, before, done, gone, index.Shelf(), root.dir)
        invariant Tracked(root.trail, old(root.trail), before.durable - doomed, before.durable,
                          ContentsOf(before.files))
        decreases |rest|
      {
        var k :| k in rest;
        MoveOne(done, rest, k);
        EraseOneMore(h, before, done, gone, keys, k);
        root.Unlink(index.records[k].value.name);
        var _ := index.Remove(k);
        gone := gone + [h.slots[k].value.name];
        rest, done := rest - {k}, done + {k};
      }
      assert done == keys;
      if keys != {} {
        R.UnlinkedPoint(before, gone, ContentsOf(before.files));
        root.Fsync();
      } else {
        NothingGone(h.slots, gone);
      }
      FiledDrop(before, h.slots, keys);
      S.DropSlots(h, keys);
      ErasePoints(root.trail, old(root.trail), before, h.slots, keys);
    }

    /** Publishes a record and enters it into the table. */
    method Publish(k: K, bytes: Bytes, sequence: nat, tags: seq<G>) returns (info: RecordInfo<G>)
      requires Valid() && k !in index.records && 0 < sequence
      modifies root, index`records, index`tags, index`bytesUsed
      ensures Valid() && index.records == old(index.records)[k := Slot(info, sequence, |bytes|)]
      ensures index.bytesUsed == SatAdd(old(index.bytesUsed), |bytes|)
      ensures info.tags == tags && info.inode !in old(root.dir.files)
      ensures root.dir.files == old(root.dir.files)[info.inode := File(bytes, true)]
      ensures old(root.trail) <= root.trail
      ensures SafeSince(root.trail, |old(root.trail)|, root.dir.files, old(index.records), index.records, index.records)
    {
      hide R.Survives, R.Whole, Filed, T.Exact;
      ghost var before, d := root.dir, index.records;
      FiledWhole(before, d);
      FiledQuiet(before, d);
      var name, inode, temp := root.Publish(bytes, sequence, ContentsOf(before.files));
      info := RecordInfo(name, inode, tags);
      index.Insert(k, info, sequence, |bytes|);
      FiledPut(before, d, k, Slot(info, sequence, |bytes|), bytes);
      PublishPoints(root.trail, old(root.trail), before, d, k, Slot(info, sequence, |bytes|), bytes, temp);
    }

    /** Publishes a record with the number just taken, when there is room for it. */
    method Enter(k: K, bytes: Bytes, tags: seq<G>, ghost limits: S.Limits) returns (info: RecordInfo<G>)
      requires Valid() && k !in index.records && 2 <= |bytes|
      requires S.Valid(index.Shelf(), limits) && limits.maxBytes < U64_MAX
      requires 0 < index.sequence && S.StampsUpTo(index.records, index.sequence - 1)
      requires Fits(index.records, Room(|bytes|, limits.maxCount, limits.maxBytes))
      modifies root, index`records, index`tags, index`bytesUsed
      ensures Valid() && S.Valid(index.Shelf(), limits)
      ensures index.records == old(index.records)[k := Slot(info, index.sequence, |bytes|)] && info.tags == tags
      ensures Newest(old(index.records), k, index.sequence)
      ensures info.inode !in old(root.dir.files)
              && root.dir.files == old(root.dir.files)[info.inode := File(bytes, true)]
      ensures old(root.trail) <= root.trail
      ensures SafeSince(root.trail, |old(root.trail)|, root.dir.files, old(index.records), index.records, index.records)
    {
      hide S.Valid, Newest, SafeSince, Filed, T.Exact, Fits;
      ghost var h := index.Shelf();
      info := Publish(k, bytes, index.sequence, tags);
      FiledUnderLimits(h, k, info, |bytes|, limits);
    }

    /** Removes more records after a stretch of work: all crash points stay under the ceiling
        of the middle. */
    method EraseAfter(keys: set<K>, ghost start: seq<Dir>, ghost floor: Table<K, G>, ghost limits: S.Limits)
      requires Valid() && keys <= index.records.Keys && S.Valid(index.Shelf(), limits)
      requires start <= root.trail && Sub(floor, index.records)
      requires SafeSince(root.trail, |start|, root.dir.files, floor, index.records, index.records)
      modifies root, index`records, index`tags, index`bytesUsed
      ensures Valid() && S.Valid(index.Shelf(), limits) && root.dir.files == old(root.dir.files)
      ensures index.records == old(index.records) - keys && start <= root.trail
      ensures SafeSince(root.trail, |start|, root.dir.files, floor - keys, old(index.records), old(index.records))
    {
      hide S.Valid, S.Drop, SafeSince, Filed, T.Exact;
      ghost var h, first, files := index.Shelf(), root.trail, root.dir.files;
      ValidBytes(h, limits);
      S.DropKeepsValid(h, keys, limits);
      S.DropSlots(h, keys);
      Erase(keys);
      ErasedAfter(start, first, root.trail, files, floor, h.slots, keys);
    }

    /** The disk half of `touch`: the old record is removed and synced away before the new
        one, of the same size, is published. */
    method Refile(k: K, bytes: Bytes, tags: seq<G>, ghost limits: S.Limits) returns (info: RecordInfo<G>)
      requires Valid() && k in index.records && |bytes| == index.records[k].weight && 0 < index.sequence
      requires S.Valid(index.Shelf().(clock := index.sequence - 1), limits) && limits.maxBytes < U64_MAX
               && index.sequence <= U64_MAX
      modifies root, index`records, index`tags, index`bytesUsed
      ensures Valid() && S.Valid(index.Shelf(), limits)
      ensures index.records == old(index.records)[k := Slot(info, index.sequence, |bytes|)] && info.tags == tags
      ensures Newest(old(index.records), k, index.sequence)
      ensures info.inode !in old(root.dir.files)
              && root.dir.files == old(root.dir.files)[info.inode := File(bytes, true)]
      ensures old(root.trail) <= root.trail
      ensures SafeSince(root.trail, |old(root.trail)|, root.dir.files, old(index.records) - {k}, old(index.records),
                        index.records)
    {
      hide S.Valid, S.Drop, Newest, SafeSince, Filed, T.Exact;
      ghost var h, start, files := index.Shelf().(clock := index.sequence - 1), root.trail, root.dir.files;
      ValidBytes(h, limits);
      Erase({k});
      ghost var middle := root.trail;
      S.DropSlots(index.Shelf(), {k});
      DropClock(h, k);
      info := Publish(k, bytes, index.sequence, tags);
      assert (h.slots - {k})[k := Slot(info, index.sequence, |bytes|)] ==
               h.slots[k := Slot(info, index.sequence, |bytes|)];
      RefileKeepsValid(h, k, info, limits);
      RefilePoints(start, middle, root.trail, files, root.dir.files, h.slots, index.records, k);
    }
  }

  // ---------------------------------------------------------------- lemmas

  lemma FiledQuiet<K(!new), G>(dir: Dir, d: Table<K, G>)
    requires Filed(dir, d)
    ensures dir.pending == []
  {
  }

  /** Every record of a filed table is complete. */
  lemma FiledWhole<K(!new), G>(dir: Dir, d: Table<K, G>)
    requires Filed(dir, d)
    ensures R.Whole(dir, dir.durable, ContentsOf(dir.files)) && dir.pending == []
  {
    forall n | n in dir.durable
      ensures dir.durable[n] in dir.files && dir.files[dir.durable[n]].synced
    {
      assert Owned(d, n);
      var k :| k in d && d[k].value.name == n;
      assert Listed(dir.durable, d[k].value) && FiledAt(dir.files, d[k]);
    }
  }

  /** Progress of the removal loop. */
  ghost predicate Erasing<K(!new), G>(h: S.Shelf<K, RecordInfo<G>>, before: Dir, done: set<K>, gone: seq<Name>,
                                      now: S.Shelf<K, RecordInfo<G>>, dir: Dir) {
    && dir == before.(pending := R.Unlinks(gone))
    && Elements(gone) == NameSet(h.slots, done)
    && now == S.Drop(h, done)
  }

  lemma EraseNothing<K(!new), G>(h: S.Shelf<K, RecordInfo<G>>, before: Dir)
    requires before.pending == []
    ensures Erasing(h, before, {}, [], h, before)
  {
    assert h.slots - {} == h.slots && S.Taken(h.slots, {}) == map[];
    assert Elements<Name>([]) == {};
  }

  lemma NothingGone<K(!new), G>(d: Table<K, G>, gone: seq<Name>)
    requires Elements(gone) == NameSet(d, {})
    ensures gone == [] && R.Unlinks(gone) == [] && NameSet(d, {}) == {}
  {
    NoElements(gone);
  }

  lemma EraseOneMore<K(!new), G>(h: S.Shelf<K, RecordInfo<G>>, before: Dir, done: set<K>, gone: seq<Name>, keys: set<K>,
                                 k: K)
    requires h.bytes == Weight(h.slots) && Filed(before, h.slots)
    requires k in h.slots && k !in done && k in keys && done <= keys
    requires Elements(gone) == NameSet(h.slots, done)
    ensures k in S.Drop(h, done).slots && S.Drop(h, done).slots[k] == h.slots[k]
    ensures h.slots[k].value.name in before.durable
    ensures Erasing(h, before, done + {k}, gone + [h.slots[k].value.name], S.Drop(S.Drop(h, done), {k}),
              before.(pending := R.Unlinks(gone) + [Unlink(h.slots[k].value.name)]))
    ensures R.Survives(before.(pending := R.Unlinks(gone) + [Unlink(h.slots[k].value.name)]),
              before.durable - NameSet(h.slots, keys), before.durable, ContentsOf(before.files))
  {
    var n := h.slots[k].value.name;
    S.DropTwice(h, done, {k});
    StillThere(h, done, k);
    NamedOnDisk(before, h.slots, k);
    UnlinkOneMore(gone, n);
    GoneOneMore(h.slots, done, gone, keys, k);
    FiledWhole(before, h.slots);
    hide Filed, R.Survives, R.Whole, Weight, S.Drop, NameSet, Elements, R.Unlinks, ContentsOf;
    R.UnlinkPoint(before, gone + [n], NameSet(h.slots, keys), ContentsOf(before.files));
  }

  lemma StillThere<K, V>(h: S.Shelf<K, V>, done: set<K>, k: K)
    requires k in h.slots && k !in done
    ensures k in S.Drop(h, done).slots && S.Drop(h, done).slots[k] == h.slots[k]
  {
  }

  lemma NamedOnDisk<K(!new), G>(dir: Dir, d: Table<K, G>, k: K)
    requires Filed(dir, d) && k in d
    ensures d[k].value.name in dir.durable
  {
    assert Listed(dir.durable, d[k].value);
  }

  lemma UnlinkOneMore(gone: seq<Name>, n: Name)
    ensures R.Unlinks(gone + [n]) == R.Unlinks(gone) + [Unlink(n)]
  {
  }

  lemma GoneOneMore<K(!new), G>(d: Table<K, G>, done: set<K>, gone: seq<Name>, keys: set<K>, k: K)
    requires k in d && k in keys && done <= keys && Elements(gone) == NameSet(d, done)
    ensures Elements(gone + [d[k].value.name]) == NameSet(d, done + {k}) <= NameSet(d, keys)
  {
    ElementsOfAppend(gone, [d[k].value.name]);
    assert Elements([d[k].value.name]) == {d[k].value.name};
    OneMoreName(d, done, k);
    MoreNames(d, done + {k}, keys);
  }

  lemma OneMoreName<K, G>(d: Table<K, G>, keys: set<K>, k: K)
    requires k in d
    ensures NameSet(d, keys + {k}) == NameSet(d, keys) + {d[k].value.name}
  {
    assert forall j :: j in keys + {k} <==> j in keys || j == k;
  }

  lemma MoreNames<K, G>(d: Table<K, G>, some: set<K>, keys: set<K>)
    requires some <= keys
    ensures NameSet(d, some) <= NameSet(d, keys)
  {
  }

  /** Every step taken survives a crash within the bounds. */
  ghost predicate Tracked(trail: seq<Dir>, start: seq<Dir>, lo: map<Name, nat>, hi: map<Name, nat>,
                          contents: map<nat, Bytes>) {
    start <= trail && forall j :: |start| <= j < |trail| ==> R.Survives(trail[j], lo, hi, contents)
  }

  lemma ErasePoints<K(!new), G>(trail: seq<Dir>, start: seq<Dir>, before: Dir, d: Table<K, G>, keys: set<K>)
    requires Filed(before, d)
    requires Tracked(trail, start, before.durable - NameSet(d, keys), before.durable, ContentsOf(before.files))
    ensures SafeSince(trail, |start|, before.files, d - keys, d, d)
  {
    ListsDrop(before.durable, d, keys);
    FiledCovers(before, d);
    NoTemps(before, d, d - keys);
    forall j | |start| <= j < |trail|
      ensures CrashSafe(trail[j], before.files, d - keys, d)
    {
      SafeFromSurvives(trail[j], before.files, before.durable - NameSet(d, keys), before.durable, d - keys, d);
    }
  }

  lemma FiledCovers<K(!new), G>(dir: Dir, d: Table<K, G>)
    requires Filed(dir, d)
    ensures Covers(d, dir.durable)
  {
    forall n | n in dir.durable
      ensures CoversAt(d, n, dir.durable[n])
    {
      assert Owned(d, n);
      var k :| k in d && d[k].value.name == n;
      assert Listed(dir.durable, d[k].value);
    }
  }

  /** A filed directory has no temporary names. */
  lemma NoTemps<K(!new), G>(dir: Dir, d: Table<K, G>, floor: Table<K, G>)
    requires Filed(dir, d)
    ensures TempsApart(dir.durable, floor)
  {
    forall n | n in dir.durable
      ensures n.Rec?
    {
      assert Owned(d, n);
      var k :| k in d && d[k].value.name == n;
      assert FiledAt(dir.files, d[k]);
    }
  }

  lemma NewTempApart<K(!new), G>(dir: Dir, d: Table<K, G>, slot: Slot<RecordInfo<G>>, temp: Name)
    requires Filed(dir, d) && slot.value.inode !in dir.files && slot.value.name.Rec?
    ensures TempsApart(dir.durable[temp := slot.value.inode][slot.value.name := slot.value.inode], d)
  {
    NoTemps(dir, d, d);
    forall k | k in d
      ensures d[k].value.inode != slot.value.inode
    {
      assert FiledAt(dir.files, d[k]);
    }
  }

  lemma PublishPoints<K(!new), G>(trail: seq<Dir>, start: seq<Dir>, before: Dir, d: Table<K, G>, k: K,
                                  slot: Slot<RecordInfo<G>>, bytes: Bytes, temp: Name)
    requires Filed(before, d) && k !in d && temp.Temp? && slot.value.name.Rec? && slot.value.name !in before.durable
    requires slot.value.inode !in before.files && 0 < slot.value.name.sequence == slot.stamp && slot.weight == |bytes|
    requires Tracked(trail, start, before.durable,
                     before.durable[temp := slot.value.inode][slot.value.name := slot.value.inode],
               ContentsOf(before.files)[slot.value.inode := bytes])
    ensures SafeSince(trail, |start|, before.files[slot.value.inode := File(bytes, true)], d, d[k := slot],
                      d[k := slot])
  {
    var files := before.files[slot.value.inode := File(bytes, true)];
    assert ContentsOf(files) == ContentsOf(before.files)[slot.value.inode := bytes];
    FiledPut(before, d, k, slot, bytes);
    FiledCovers(Dir(before.durable[slot.value.name := slot.value.inode], [], files), d[k := slot]);
    NewTempApart(before, d, slot, temp);
    forall j | |start| <= j < |trail|
      ensures CrashSafe(trail[j], files, d, d[k := slot])
    {
      SafeFromSurvives(trail[j], files, before.durable,
                       before.durable[temp := slot.value.inode][slot.value.name := slot.value.inode], d, d[k := slot]);
    }
  }

  lemma ValidBytes<K(!new), V>(h: S.Shelf<K, V>, limits: S.Limits)
    requires S.Valid(h, limits)
    ensures h.bytes == Weight(h.slots)
  {
  }

  lemma DropClock<K, V>(h: S.Shelf<K, V>, k: K)
    ensures forall clock: nat :: S.Drop(h.(clock := clock), {k}) == S.Drop(h, {k}).(clock := clock)
    ensures k !in S.Drop(h, {k}).slots && S.Drop(h, {k}).slots == h.slots - {k}
  {
  }

  lemma RefilePoints<K(!new), G>(start: seq<Dir>, middle: seq<Dir>, trail: seq<Dir>, files: map<nat, File>,
                                 more: map<nat, File>,
                                 d: Table<K, G>, d': Table<K, G>, k: K)
    requires start <= middle <= trail && Sub(files, more)
    requires SafeSince(middle, |start|, files, d - {k}, d, d)
    requires SafeSince(trail, |middle|, more, d - {k}, d', d')
    ensures SafeSince(trail, |start|, more, d - {k}, d, d')
  {
    SafeEither(middle, |start|, files, d - {k}, d, d');
    SafeEither(trail, |middle|, more, d - {k}, d, d');
    SubSelf(d - {k});
    SafeJoin(middle, trail, |start|, files, more, d - {k}, d - {k}, d - {k}, d, d');
  }

  lemma FiledUnderLimits<K(!new), W>(h: S.Shelf<K, W>, k: K, w: W, weight: nat, limits: S.Limits)
    requires S.Valid(h, limits) && limits.maxBytes < U64_MAX && 2 <= weight && k !in h.slots
    requires 0 < h.clock && S.StampsUpTo(h.slots, h.clock - 1)
    requires Fits(h.slots, Room(weight, limits.maxCount, limits.maxBytes))
    ensures S.Valid(S.Shelf(h.slots[k := Slot(w, h.clock, weight)], SatAdd(h.bytes, weight), h.clock), limits)
    ensures Newest(h.slots, k, h.clock)
  {
    hide Distinct, Weight, S.Weighty, S.StampsUpTo, Fits, Newest;
    FileKeepsValid(h.(clock := h.clock - 1), k, w, weight, limits);
  }

  lemma ErasedAfter<K(!new), G>(start: seq<Dir>, first: seq<Dir>, trail: seq<Dir>, files: map<nat, File>,
                                floor: Table<K, G>, d: Table<K, G>, keys: set<K>)
    requires start <= first <= trail && Sub(floor, d)
    requires SafeSince(first, |start|, files, floor, d, d) && SafeSince(trail, |first|, files, d - keys, d, d)
    ensures SafeSince(trail, |start|, files, floor - keys, d, d)
  {
    SubSelf(files);
    SubDrop(floor, d, keys);
    SafeJoin(first, trail, |start|, files, files, floor, d - keys, floor - keys, d, d);
  }

  lemma SubDrop<K, V>(a: map<K, V>, b: map<K, V>, keys: set<K>)
    requires Sub(a, b)
    ensures Sub(a - keys, b - keys) && Sub(a - keys, a)
  {
  }

  // ---------------------------------------------------------------- recovery

  /** Unlinks the records of some keys and forgets them, without a sync. */
  method Unload<K(==, !new), G(==, !new)>(root: R.Root, index: DiskIndex<K, G>, keys: set<K>)
    returns (ghost gone: seq<Name>)
    requires root.Valid() && index.Indexed() && keys <= index.records.Keys && index.bytesUsed == Weight(index.records)
    requires forall k :: k in keys ==> index.records[k].value.name.id < root.nextId
    modifies root, index`records, index`tags, index`bytesUsed
    ensures root.Valid() && index.Indexed() && root.nextId == old(root.nextId)
    ensures index.Shelf() == S.Drop(old(index.Shelf()), keys)
    ensures root.dir == old(root.dir).(pending := old(root.dir).pending + R.Unlinks(gone))
    ensures root.trail == old(root.trail) + TrailOf(old(root.dir), R.Unlinks(gone))
    ensures Elements(gone) == NameSet(old(index.records), keys)
  {
    hide S.Drop, T.Exact, Carried, Weight, Elements, NameSet, R.UsedBelow, R.Unlinks, TrailOf;
    R.NoUnlinks(root.dir);
    ghost var before, h, pending := root.dir, index.Shelf(), root.dir.pending;
    ghost var done: set<K> := {};
    gone := [];
    var rest := keys;
    UnloadNothing(h, pending);
    while rest != {}
      invariant root.Valid() && index.Indexed() && root.nextId == old(root.nextId)
      invariant done + rest == keys && done !! rest
      invariant index.Shelf() == S.Drop(h, done) && root.dir == before.(pending := pending + R.Unlinks(gone))
      invariant root.trail == old(root.trail) + TrailOf(before, R.Unlinks(gone))
      invariant Elements(gone) == NameSet(h.slots, done)
      decreases |rest|
    {
      var k :| k in rest;
      MoveOne(done, rest, k);
      UnloadOne(root, index, k, before, h, done, gone, old(root.trail));
      gone := gone + [h.slots[k].value.name];
      rest, done := rest - {k}, done + {k};
    }
    assert done == keys;
  }

  /** One record of the loop. */
  method UnloadOne<K(==, !new), G(==, !new)>(root: R.Root, index: DiskIndex<K, G>, k: K, ghost before: Dir,
                                             ghost h: S.Shelf<K, RecordInfo<G>>,
                                             ghost done: set<K>, ghost gone: seq<Name>, ghost start: seq<Dir>)
    requires root.Valid() && index.Indexed() && h.bytes == Weight(h.slots) && k in h.slots && k !in done
             && h.slots[k].value.name.id < root.nextId
    requires index.Shelf() == S.Drop(h, done) && root.dir == before.(pending := before.pending + R.Unlinks(gone))
    requires root.trail == start + TrailOf(before, R.Unlinks(gone)) && Elements(gone) == NameSet(h.slots, done)
    modifies root, index`records, index`tags, index`bytesUsed
    ensures root.Valid() && index.Indexed() && root.nextId == old(root.nextId) && index.Shelf() == S.Drop(h, done + {k})
    ensures var more := gone + [h.slots[k].value.name];
            && root.dir == before.(pending := before.pending + R.Unlinks(more))
            && root.trail == start + TrailOf(before, R.Unlinks(more)) && Elements(more) == NameSet(h.slots, done + {k})
  {
    hide S.Drop, T.Exact, Carried, Weight, Elements, NameSet, R.UsedBelow, R.Unlinks, TrailOf;
    StillThere(h, done, k);
    S.DropTwice(h, done, {k});
    GoneOneMore(h.slots, done, gone, done + {k}, k);
    UnlinkedTrail(before, gone, h.slots[k].value.name);
    root.Unlink(index.records[k].value.name);
    var _ := index.Remove(k);
  }

  lemma UnlinkedTrail(before: Dir, gone: seq<Name>, n: Name)
    ensures var d := before.(pending := before.pending + R.Unlinks(gone));
            && Unlinked(d, n) == before.(pending := before.pending + R.Unlinks(gone + [n]))
            && TrailOf(before, R.Unlinks(gone + [n])) == TrailOf(before, R.Unlinks(gone)) + [Unlinked(d, n)]
  {
    hide TrailOf, R.Unlinks;
    UnlinkOneMore(gone, n);
    TrailOneMore(before, R.Unlinks(gone), Unlink(n));
    assert before.pending + (R.Unlinks(gone) + [Unlink(n)]) == before.pending + R.Unlinks(gone) + [Unlink(n)];
  }

  lemma UnloadNothing<K, G>(h: S.Shelf<K, RecordInfo<G>>, pending: seq<Op>)
    ensures S.Drop(h, {}) == h && pending + R.Unlinks([]) == pending && Elements<Name>([]) == NameSet(h.slots, {})
  {
    assert h.slots - {} == h.slots && S.Taken(h.slots, {}) == map[];
  }

  ghost predicate NamesBelow<K(!new), G>(d: Table<K, G>, n: nat) {
    forall k :: k in d ==> d[k].value.name.id < n
  }

  /** Enters a recovered record and lets others go: `State::insert` and `reconcile_insertion`
      in the restoring loop. */
  method Reenter<K(==, !new), G(==, !new)>(root: R.Root, index: DiskIndex<K, G>, k: K, slot: Slot<RecordInfo<G>>,
                                           lost: set<K>, ghost limits: S.Limits)
    returns (ghost gone: seq<Name>)
    requires root.Valid() && index.Indexed() && S.Valid(index.Shelf(), limits) && limits.maxBytes < U64_MAX
    requires NamesBelow(index.records, root.nextId) && k !in index.records && lost <= index.records.Keys
    requires index.sequence < slot.stamp <= U64_MAX && 2 <= slot.weight
    requires Fits(index.records, Room(slot.weight, limits.maxCount, limits.maxBytes))
    modifies root, index
    ensures root.Valid() && index.Indexed() && S.Valid(index.Shelf(), limits) && root.nextId == old(root.nextId)
    ensures index.records == old(index.records)[k := slot] - lost && index.sequence == slot.stamp
    ensures Newest(old(index.records), k, slot.stamp)
    ensures root.dir == old(root.dir).(pending := old(root.dir).pending + R.Unlinks(gone))
    ensures root.trail == old(root.trail) + TrailOf(old(root.dir), R.Unlinks(gone))
    ensures Elements(gone) == NameSet(old(index.records), lost)
  {
    hide S.Valid, S.Drop, T.Exact, Carried, R.UsedBelow, R.Unlinks, Elements, NameSet, Weight, Fits, Newest, TrailOf;
    ghost var d := index.records;
    index.sequence := Max(index.sequence, slot.stamp);
    ghost var h := index.Shelf();
    NumberedAbove(h.(clock := old(index.sequence)), slot.stamp, limits);
    index.Insert(k, slot.value, slot.stamp, slot.weight);
    FiledUnderLimits(h, k, slot.value, slot.weight, limits);
    ghost var t := index.Shelf();
    ValidBytes(t, limits);
    S.DropKeepsValid(t, lost, limits);
    S.DropSlots(t, lost);
    SameNames(d, k, slot, lost);
    gone := Unload(root, index, lost);
  }

  lemma NumberedAbove<K(!new), V>(h: S.Shelf<K, V>, number: nat, limits: S.Limits)
    requires S.Valid(h, limits) && h.clock < number <= U64_MAX
    ensures S.Valid(h.(clock := number), limits) && S.StampsUpTo(h.slots, number - 1)
  {
  }

  lemma SameNames<K, G>(d: Table<K, G>, k: K, slot: Slot<RecordInfo<G>>, lost: set<K>)
    requires k !in d && lost <= d.Keys
    ensures NameSet(d[k := slot], lost) == NameSet(d, lost) && lost <= d[k := slot].Keys
    ensures forall j :: j in lost ==> d[k := slot][j] == d[j]
  {
    assert forall j :: j in lost ==> j in d && d[k := slot][j] == d[j];
  }
}
