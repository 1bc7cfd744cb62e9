/** What ties the files of the disk cache to the entries of its memory cache. */
module DiskWorld {
  import opened Prelude
  import opened Keys
  import opened Policy
  import opened Entries
  import opened Lru
  import opened Codec
  import opened Records
  import opened RecordFacts
  import opened Directory
  import opened DiskIndex
  import opened CacheModel
  import opened Ledger
  import S = Shelf

  datatype DiskConfig = DiskConfig(memory: Config, maxDiskBytes: nat, maxDiskFiles: nat, maxRecordBytes: nat)

  /** `validate_disk_config`, with quotas below the largest size. */
  predicate ValidDiskConfig(c: DiskConfig) {
    Accountable(c.memory) && 0 < c.maxDiskFiles && 0 < c.maxRecordBytes <= c.maxDiskBytes < U64_MAX
  }

  function DiskLimits(c: DiskConfig): S.Limits {
    S.Limits(c.maxDiskFiles, c.maxDiskBytes)
  }

  type Table = map<CacheKey, Slot<RecordInfo<Bytes>>>

  // ---------------------------------------------------------------- records and entries

  predicate IsImageOf(crc: Bytes -> U32, bytes: Bytes, stamp: nat, i: Image, e: Entry) {
    Encode(crc, i) == Some(bytes) && i.sequence == stamp == i.access && Represents(i, e)
  }

  /** The bytes are a record of this entry's representation with this access number. */
  ghost predicate Tells(crc: Bytes -> U32, bytes: Bytes, stamp: nat, e: Entry) {
    exists i :: IsImageOf(crc, bytes, stamp, i, e)
  }

  lemma FirstEncoding(crc: Bytes -> U32, e: Entry, sequence: nat, now: Duration, wall: WallTime)
    ensures var r := Encode(crc, ToImage(e, sequence, sequence, now, wall)); r.Some? ==>
              Tells(crc, r.value, sequence, e)
  {
    var i := ToImage(e, sequence, sequence, now, wall);
    var r := Encode(crc, i);
    hide Encode;
    if r.Some? {
      assert IsImageOf(crc, r.value, sequence, i, e);
    }
  }

  /** Encoding an entry again cannot fail and gives a record of the same size. */
  lemma NextEncoding(crc: Bytes -> U32, bytes: Bytes, stamp: nat, e: Entry, sequence: nat, now: Duration,
                     wall: WallTime)
    requires Tells(crc, bytes, stamp, e) && sequence <= U64_MAX
    ensures var r := Encode(crc, ToImage(e, sequence, sequence, now, wall));
            r.Some? && |r.value| == |bytes| && Tells(crc, r.value, sequence, e)
  {
    var i :| IsImageOf(crc, bytes, stamp, i, e);
    var j := ToImage(e, sequence, sequence, now, wall);
    assert SameContent(i, j) by {
      hide Encode;
    }
    assert Encodable(i);
    SameSize(crc, i, j);
    FirstEncoding(crc, e, sequence, now, wall);
  }

  // ---------------------------------------------------------------- moments of writing

  /** What a record was written from: the entry and the moment, on both clocks. */
  datatype Writing = Writing(entry: Entry, at: Duration, wall: WallTime)

  /** The file of a record holds exactly what encoding that entry at that moment gives, its age
      and the wall-clock time included. */
  ghost predicate WrittenFrom(c: DiskConfig, crc: Bytes -> U32, files: map<nat, File>, slot: Slot<RecordInfo<Bytes>>,
                              w: Writing) {
    && slot.value.inode in files && Bounded(c.memory, w.entry) && |files[slot.value.inode].bytes| <= c.maxRecordBytes
    && Encode(crc, ToImage(w.entry, slot.stamp, slot.stamp, w.at, w.wall)) == Some(files[slot.value.inode].bytes)
  }

  ghost predicate RenewedAt(c: DiskConfig, crc: Bytes -> U32, files: map<nat, File>, now: Duration, wall: WallTime,
                            touched: Option<CacheKey>, before: Table, m: Slots, after: Table, m': Slots, k: CacheKey)
    requires k in after && k in m'
  {
    && k in before && k in m && m'[k].value == m[k].value
    && if touched == Some(k) then WrittenFrom(c, crc, files, after[k], Writing(m[k].value, now, wall))
       else after[k] == before[k]
  }

  /** Entries that are still there are unchanged, and so are their records, except that the
      touched one was written again from its entry at this moment. */
  ghost predicate Renewed(c: DiskConfig, crc: Bytes -> U32, files: map<nat, File>, now: Duration, wall: WallTime,
                          touched: Option<CacheKey>, before: Table, m: Slots, after: Table, m': Slots) {
    forall k :: k in after && k in m' ==> RenewedAt(c, crc, files, now, wall, touched, before, m, after, m', k)
  }

  /** Entries other than the one with this key are old ones, unchanged. */
  ghost predicate SameOthers(m: Slots, m': Slots, key: CacheKey) {
    forall k :: k in m' && k != key ==> k in m && m'[k].value == m[k].value
  }

  lemma RemovalRenews(c: DiskConfig, crc: Bytes -> U32, files: map<nat, File>, now: Duration, wall: WallTime,
                      before: Table, m: Slots, after: Table, m': Slots)
    requires Sub(after, before) && forall k :: k in m' ==> k in m && m'[k].value == m[k].value
    ensures Renewed(c, crc, files, now, wall, None, before, m, after, m')
  {
    hide WrittenFrom;
  }

  lemma SameOthersDropped(m: Slots, gone: set<CacheKey>, m': Slots, key: CacheKey)
    requires SameOthers(m - gone, m', key)
    ensures SameOthers(m, m', key)
  {
  }

  // ---------------------------------------------------------------- all records

  ghost predicate ToldAt(c: DiskConfig, crc: Bytes -> U32, files: map<nat, File>, slot: Slot<RecordInfo<Bytes>>,
                         e: Entry) {
    && slot.value.inode in files && slot.value.tags == e.tags
    && slot.weight <= c.maxRecordBytes && Bounded(c.memory, e)
    && Tells(crc, files[slot.value.inode].bytes, slot.stamp, e)
  }

  /** Every record holds the representation of the resident entry with its key. */
  ghost predicate Told(c: DiskConfig, crc: Bytes -> U32, files: map<nat, File>, m: Slots, d: Table) {
    forall k :: k in d && k in m ==> ToldAt(c, crc, files, d[k], m[k].value)
  }

  lemma ToldDrop(c: DiskConfig, crc: Bytes -> U32, files: map<nat, File>, m: Slots, d: Table, keys: set<CacheKey>)
    requires Told(c, crc, files, m, d)
    ensures Told(c, crc, files, m - keys, d - keys)
  {
    hide ToldAt;
  }

  lemma ToldTouch(c: DiskConfig, crc: Bytes -> U32, files: map<nat, File>, more: map<nat, File>, m: Slots, m': Slots,
                  d: Table, k: CacheKey, slot: Slot<RecordInfo<Bytes>>)
    requires Told(c, crc, files, m, d) && Sub(files, more)
    requires S.MovedToFront(m, m', k) && ToldAt(c, crc, more, slot, m[k].value)
    ensures Told(c, crc, more, m', d[k := slot])
  {
    hide Tells, Bounded;
    forall j | j in d && j in m
      ensures ToldAt(c, crc, more, d[j], m[j].value)
    {
      assert ToldAt(c, crc, files, d[j], m[j].value);
    }
  }

  lemma ToldPut(c: DiskConfig, crc: Bytes -> U32, files: map<nat, File>, more: map<nat, File>, m: Slots, m': Slots,
                d: Table, k: CacheKey, e: Entry,
                gone: set<CacheKey>, slot: Slot<RecordInfo<Bytes>>)
    requires Told(c, crc, files, m, d) && Sub(files, more)
    requires S.PutOver(m, m', k, e, e.charge, gone) && ToldAt(c, crc, more, slot, e)
    ensures Told(c, crc, more, m', d[k := slot] - gone)
  {
    hide Tells, Bounded;
    forall j | j in d && j in m
      ensures ToldAt(c, crc, more, d[j], m[j].value)
    {
      assert ToldAt(c, crc, files, d[j], m[j].value);
    }
  }

  ghost predicate RecordedAt(c: DiskConfig, crc: Bytes -> U32, files: map<nat, File>, m: Slots, d: Table, k: CacheKey)
    requires k in d
  {
    k in m && m[k].value.key == k && ToldAt(c, crc, files, d[k], m[k].value) && FiledAt(files, d[k])
  }

  /** Every record of the table is complete, tells the entry with its key, and has a name, a
      file and a number of its own. */
  ghost predicate Recorded(c: DiskConfig, crc: Bytes -> U32, files: map<nat, File>, m: Slots, d: Table) {
    NamesDistinct(d) && Distinct(d) && forall k :: k in d ==> RecordedAt(c, crc, files, m, d, k)
  }

  lemma RunningIsRecorded(c: DiskConfig, crc: Bytes -> U32, dir: Dir, m: Slots, d: S.Shelf<CacheKey, RecordInfo<Bytes>>)
    requires Filed(dir, d.slots) && S.Valid(d, DiskLimits(c)) && Agree(m, d.slots)
             && Told(c, crc, dir.files, m, d.slots) && Labelled(m)
    ensures Recorded(c, crc, dir.files, m, d.slots)
  {
    hide ToldAt, Lists, Weight;
    forall k | k in d.slots
      ensures RecordedAt(c, crc, dir.files, m, d.slots, k)
    {
      assert FiledAt(dir.files, d.slots[k]) && LabelledAt(m[k], k);
    }
  }

  /** The memory table with one more entry. */
  ghost function Shadow(m: Slots, e: Entry): Slots {
    m[e.key := Slot(e, 0, e.charge)]
  }

  /** More files change no record. */
  lemma RecordedLater(c: DiskConfig, crc: Bytes -> U32, files: map<nat, File>, more: map<nat, File>, m: Slots, d: Table)
    requires Recorded(c, crc, files, m, d) && Sub(files, more)
    ensures Recorded(c, crc, more, m, d)
  {
    hide NamesDistinct, Distinct, Tells;
    forall k | k in d
      ensures RecordedAt(c, crc, more, m, d, k)
    {
      assert RecordedAt(c, crc, files, m, d, k);
    }
  }

  /** A new record joins what is left of a recorded table. */
  lemma RecordedMore(c: DiskConfig, crc: Bytes -> U32, files: map<nat, File>, more: map<nat, File>, m: Slots, d: Table,
                     e: Entry, middle: Table)
    requires Recorded(c, crc, files, m, d) && Sub(files, more) && e.key in middle && Sub(middle - {e.key}, d)
    requires NamesDistinct(middle) && Distinct(middle)
    requires ToldAt(c, crc, more, middle[e.key], e) && FiledAt(more, middle[e.key])
    ensures Recorded(c, crc, more, Shadow(m, e), middle)
  {
    hide Tells, Bounded;
    forall k | k in middle
      ensures RecordedAt(c, crc, more, Shadow(m, e), middle, k)
    {
      if k != e.key {
        assert k in middle - {e.key};
        assert RecordedAt(c, crc, files, m, d, k);
      }
    }
  }
}
