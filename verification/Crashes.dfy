/** What a crash leaves of the record table: between a floor and a ceiling, one version of
    each key at most, every record complete. */
module Crashes {
  import opened Prelude
  import opened Sets
  import opened Lru
  import opened Directory
  import opened DiskIndex
  import opened Ledger
  import R = Root

  /** The part of the table whose names survived. */
  ghost function Left<K, G>(d: map<K, Slot<RecordInfo<G>>>, names: map<Name, nat>): map<K, Slot<RecordInfo<G>>> {
    map k | k in d && Listed(names, d[k].value) :: d[k]
  }

  /** The record names left are exactly those of a part of the ceiling that includes the
      floor, and the files are the complete ones of `files`. */
  ghost predicate LeftSafe<K(!new), G>(dir: Dir, files: map<nat, File>, names: map<Name, nat>,
                                       floor: map<K, Slot<RecordInfo<G>>>, ceiling: map<K, Slot<RecordInfo<G>>>) {
    && Sub(floor, Left(ceiling, names))
    && (forall n :: n in names && n.Rec? ==> Owned(Left(ceiling, names), n))
    && (forall k :: k in Left(ceiling, names) ==> SameFile(dir.files, files, ceiling[k].value.inode))
    && TempsApart(names, floor)
  }

  /** No temporary name leads to the file of a record. */
  ghost predicate TempsApart<K(!new), G>(names: map<Name, nat>, floor: map<K, Slot<RecordInfo<G>>>) {
    forall n, k :: n in names && n.Temp? && k in floor ==> names[n] != floor[k].value.inode
  }

  predicate SameFile(now: map<nat, File>, files: map<nat, File>, inode: nat) {
    inode in now && inode in files && now[inode] == files[inode]
  }

  ghost predicate CrashSafe<K(!new), G>(dir: Dir, files: map<nat, File>, floor: map<K, Slot<RecordInfo<G>>>,
                                        ceiling: map<K, Slot<RecordInfo<G>>>) {
    forall names :: CrashLeaves(dir, names) ==> LeftSafe(dir, files, names, floor, ceiling)
  }

  /** Every step since `from` was safe under one of two ceilings. */
  ghost predicate SafeSince<K(!new), G>(trail: seq<Dir>, from: nat, files: map<nat, File>,
                                        floor: map<K, Slot<RecordInfo<G>>>,
                                        before: map<K, Slot<RecordInfo<G>>>, after: map<K, Slot<RecordInfo<G>>>) {
    forall j :: from <= j < |trail| ==> CrashSafe(trail[j], files, floor, before)
                                        || CrashSafe(trail[j], files, floor, after)
  }

  function ContentsOf(files: map<nat, File>): map<nat, Bytes> {
    map i | i in files :: files[i].bytes
  }

  /** Record names in `hi` belong to the ceiling. */
  ghost predicate Covers<K(!new), G>(ceiling: map<K, Slot<RecordInfo<G>>>, hi: map<Name, nat>) {
    forall n :: n in hi && n.Rec? ==> CoversAt(ceiling, n, hi[n])
  }

  ghost predicate CoversAt<K(!new), G>(ceiling: map<K, Slot<RecordInfo<G>>>, n: Name, inode: nat) {
    exists k :: k in ceiling && ceiling[k].value.name == n && ceiling[k].value.inode == inode
  }

  ghost predicate InNames<K, G>(floor: map<K, Slot<RecordInfo<G>>>, lo: map<Name, nat>) {
    forall k :: k in floor ==> Listed(lo, floor[k].value)
  }

  lemma SafeFromSurvives<K(!new), G>(dir: Dir, files: map<nat, File>, lo: map<Name, nat>, hi: map<Name, nat>,
                                     floor: map<K, Slot<RecordInfo<G>>>, ceiling: map<K, Slot<RecordInfo<G>>>)
    requires R.Survives(dir, lo, hi, ContentsOf(files)) && AllFiled(files, ceiling)
    requires Sub(floor, ceiling) && InNames(floor, lo) && Covers(ceiling, hi) && TempsApart(hi, floor)
    ensures CrashSafe(dir, files, floor, ceiling)
  {
    forall names | CrashLeaves(dir, names)
      ensures LeftSafe(dir, files, names, floor, ceiling)
    {
      LeftIsSafe(dir, files, names, lo, hi, floor, ceiling);
    }
  }

  lemma LeftIsSafe<K(!new), G>(dir: Dir, files: map<nat, File>, names: map<Name, nat>, lo: map<Name, nat>,
                               hi: map<Name, nat>,
                               floor: map<K, Slot<RecordInfo<G>>>, ceiling: map<K, Slot<RecordInfo<G>>>)
    requires Sub(lo, names) && Sub(names, hi) && R.Whole(dir, names, ContentsOf(files)) && AllFiled(files, ceiling)
    requires Sub(floor, ceiling) && InNames(floor, lo) && Covers(ceiling, hi) && TempsApart(hi, floor)
    ensures LeftSafe(dir, files, names, floor, ceiling)
  {
    var left := Left(ceiling, names);
    forall n | n in names && n.Rec?
      ensures Owned(left, n)
    {
      assert CoversAt(ceiling, n, hi[n]);
      var k :| k in ceiling && ceiling[k].value.name == n && ceiling[k].value.inode == hi[n];
      assert left[k].value.name == n;
    }
    forall k | k in left
      ensures SameFile(dir.files, files, ceiling[k].value.inode)
    {
      assert FiledAt(files, ceiling[k]);
      assert ceiling[k].value.name in names;
    }
    forall k | k in floor
      ensures k in left && left[k] == floor[k]
    {
      assert Listed(lo, floor[k].value);
    }
  }

  /** Whatever a crash leaves respects the quotas the ceiling respects. */
  lemma LeftWithinQuota<K(!new), G>(d: map<K, Slot<RecordInfo<G>>>, names: map<Name, nat>, maxFiles: nat, maxBytes: nat)
    requires |d| <= maxFiles && Weight(d) <= maxBytes
    ensures |Left(d, names)| <= maxFiles && Weight(Left(d, names)) <= maxBytes
  {
    var left := Left(d, names);
    SubsetSize(left.Keys, d.Keys);
    assert |left| == |left.Keys| && |d| == |d.Keys|;
    WeightMonotone(d, d.Keys - left.Keys);
    assert d - (d.Keys - left.Keys) == left;
  }

  /** A lower floor and later files weaken the claim. */
  lemma SafeWeaker<K(!new), G>(dir: Dir, files: map<nat, File>, more: map<nat, File>,
                               floor: map<K, Slot<RecordInfo<G>>>, lower: map<K, Slot<RecordInfo<G>>>,
                               ceiling: map<K, Slot<RecordInfo<G>>>)
    requires CrashSafe(dir, files, floor, ceiling) && Sub(files, more) && Sub(lower, floor)
    ensures CrashSafe(dir, more, lower, ceiling)
  {
    forall names | CrashLeaves(dir, names)
      ensures LeftSafe(dir, more, names, lower, ceiling)
    {
      assert LeftSafe(dir, files, names, floor, ceiling);
    }
  }

  /** Two stretches of work, one after the other. */
  lemma SafeJoin<K(!new), G>(first: seq<Dir>, trail: seq<Dir>, from: nat, files: map<nat, File>, more: map<nat, File>,
                             floor1: map<K, Slot<RecordInfo<G>>>, floor2: map<K, Slot<RecordInfo<G>>>,
                             floor: map<K, Slot<RecordInfo<G>>>,
                             before: map<K, Slot<RecordInfo<G>>>, after: map<K, Slot<RecordInfo<G>>>)
    requires first <= trail && from <= |first| && Sub(files, more) && Sub(floor, floor1) && Sub(floor, floor2)
    requires SafeSince(first, from, files, floor1, before, after)
    requires SafeSince(trail, |first|, more, floor2, before, after)
    ensures SafeSince(trail, from, more, floor, before, after)
  {
    forall j | from <= j < |trail|
      ensures CrashSafe(trail[j], more, floor, before) || CrashSafe(trail[j], more, floor, after)
    {
      hide CrashSafe, Sub;
      if j < |first| {
        assert trail[j] == first[j];
        if CrashSafe(first[j], files, floor1, before) {
          SafeWeaker(trail[j], files, more, floor1, floor, before);
        } else {
          SafeWeaker(trail[j], files, more, floor1, floor, after);
        }
      } else {
        SubSelf(more);
        if CrashSafe(trail[j], more, floor2, before) {
          SafeWeaker(trail[j], more, more, floor2, floor, before);
        } else {
          SafeWeaker(trail[j], more, more, floor2, floor, after);
        }
      }
    }
  }

  lemma SubSelf<K, V>(m: map<K, V>)
    ensures Sub(m, m)
  {
  }

  /** The order of the two ceilings, or a second one, does not matter. */
  lemma SafeEither<K(!new), G>(trail: seq<Dir>, from: nat, files: map<nat, File>, floor: map<K, Slot<RecordInfo<G>>>,
                               before: map<K, Slot<RecordInfo<G>>>, after: map<K, Slot<RecordInfo<G>>>)
    requires SafeSince(trail, from, files, floor, before, before) || SafeSince(trail, from, files, floor, after, after)
    ensures SafeSince(trail, from, files, floor, before, after)
  {
    hide CrashSafe;
  }

  /** The records a change leaves alone. */
  ghost function Common<K, W>(before: map<K, W>, after: map<K, W>): map<K, W> {
    map k | k in before && k in after && before[k] == after[k] :: before[k]
  }

  /** Every crash since `from` finds the old or the new version of the changed records, or
      none, and all the others. */
  ghost predicate SafeChange<K(!new), G>(trail: seq<Dir>, from: nat, files: map<nat, File>,
                                         before: map<K, Slot<RecordInfo<G>>>, after: map<K, Slot<RecordInfo<G>>>) {
    SafeSince(trail, from, files, Common(before, after), before, after)
  }

  lemma SafeNoChange<K(!new), G>(trail: seq<Dir>, files: map<nat, File>, d: map<K, Slot<RecordInfo<G>>>)
    ensures SafeChange(trail, |trail|, files, d, d)
  {
  }

  lemma SafeErased<K(!new), G>(trail: seq<Dir>, from: nat, files: map<nat, File>, d: map<K, Slot<RecordInfo<G>>>,
                               keys: set<K>)
    requires SafeSince(trail, from, files, d - keys, d, d) && from <= |trail|
    ensures SafeChange(trail, from, files, d, d - keys)
  {
    hide CrashSafe;
    SafeEither(trail, from, files, d - keys, d, d - keys);
    SafeLower(trail, from, files, d - keys, Common(d, d - keys), d, d - keys);
  }

  lemma SafeRefiled<K(!new), G>(trail: seq<Dir>, from: nat, files: map<nat, File>, d: map<K, Slot<RecordInfo<G>>>, k: K,
                                slot: Slot<RecordInfo<G>>)
    requires k in d && d[k] != slot && from <= |trail|
    requires SafeSince(trail, from, files, d - {k}, d, d[k := slot])
    ensures SafeChange(trail, from, files, d, d[k := slot])
  {
    hide CrashSafe;
    SafeLower(trail, from, files, d - {k}, Common(d, d[k := slot]), d, d[k := slot]);
  }

  lemma SafeLower<K(!new), G>(trail: seq<Dir>, from: nat, files: map<nat, File>, floor: map<K, Slot<RecordInfo<G>>>,
                              lower: map<K, Slot<RecordInfo<G>>>,
                              before: map<K, Slot<RecordInfo<G>>>, after: map<K, Slot<RecordInfo<G>>>)
    requires SafeSince(trail, from, files, floor, before, after) && Sub(lower, floor) && from <= |trail|
    ensures SafeSince(trail, from, files, lower, before, after)
  {
    hide CrashSafe;
    SubSelf(files);
    assert SafeSince(trail, |trail|, files, floor, before, after);
    SafeJoin(trail, trail, from, files, files, floor, floor, lower, before, after);
  }
}
