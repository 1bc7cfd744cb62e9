/** The second pass of recovery, generic in keys: trimming to the quotas, and what it takes
    for a table to be rebuilt without loss. */
module Rebuild {
  import opened Sets
  import opened Lru
  import opened Directory
  import opened DiskIndex
  import opened Ledger
  import opened Recency
  import C = Scan
  import R = Root
  import RS = RecordStore

  /** What is left without the first `n` keys is within the quotas. */
  ghost predicate FitsFrom<K(!new), V>(t: map<K, Slot<V>>, ordered: seq<K>, n: nat, maxCount: nat, maxBytes: nat)
    requires n <= |ordered|
  {
    |t - Elements(ordered[..n])| <= maxCount && Weight(t - Elements(ordered[..n])) <= maxBytes
  }

  /** The total size from position `n` on. */
  method SizeFrom<K(==, !new), V>(t: map<K, Slot<V>>, ordered: seq<K>, n: nat) returns (total: nat)
    requires NoRepeats(ordered) && Elements(ordered) == t.Keys && n <= |ordered|
    ensures total == Weight(t - Elements(ordered[..n]))
  {
    total := 0;
    for i := n to |ordered|
      invariant total + Weight(t - Elements(ordered[..i])) == Weight(t - Elements(ordered[..n]))
    {
      NextWeight(t, ordered, i);
      total := total + t[ordered[i]].weight;
    }
    assert ordered[..|ordered|] == ordered;
    assert t - Elements(ordered) == map[];
  }

  /** The trimming loop of `scan_root`: the fewest oldest records that must go. */
  method Trim<K(==, !new), V>(t: map<K, Slot<V>>, ordered: seq<K>, maxCount: nat, maxBytes: nat) returns (n: nat)
    requires NoRepeats(ordered) && Elements(ordered) == t.Keys
    ensures n <= |ordered| && FitsFrom(t, ordered, n, maxCount, maxBytes)
    ensures NoneBefore(t, ordered, n, maxCount, maxBytes)
  {
    n := 0;
    hide FitsFrom, NoneBefore, Weight, Elements, NoRepeats;
    StartTrim(t, ordered, maxCount, maxBytes);
    while true
      invariant n <= |ordered| && NoneBefore(t, ordered, n, maxCount, maxBytes)
      decreases |ordered| - n
    {
      var total := SizeFrom(t, ordered, n);
      CountFrom(t, ordered, n);
      TrimTest(t, ordered, n, maxCount, maxBytes);
      if |ordered| - n <= maxCount && total <= maxBytes {
        break;
      }
      TrimMore(t, ordered, n, maxCount, maxBytes);
      n := n + 1;
    }
  }

  /** No shorter cut is enough. */
  ghost predicate NoneBefore<K(!new), V>(t: map<K, Slot<V>>, ordered: seq<K>, n: nat, maxCount: nat, maxBytes: nat)
    requires n <= |ordered|
  {
    forall m :: 0 <= m < n ==> !FitsFrom(t, ordered, m, maxCount, maxBytes)
  }

  lemma StartTrim<K(!new), V>(t: map<K, Slot<V>>, ordered: seq<K>, maxCount: nat, maxBytes: nat)
    ensures NoneBefore(t, ordered, 0, maxCount, maxBytes)
  {
  }

  lemma TrimMore<K(!new), V>(t: map<K, Slot<V>>, ordered: seq<K>, n: nat, maxCount: nat, maxBytes: nat)
    requires n < |ordered| && NoneBefore(t, ordered, n, maxCount, maxBytes)
             && !FitsFrom(t, ordered, n, maxCount, maxBytes)
    ensures NoneBefore(t, ordered, n + 1, maxCount, maxBytes)
  {
    hide FitsFrom;
  }

  lemma TrimTest<K(!new), V>(t: map<K, Slot<V>>, ordered: seq<K>, n: nat, maxCount: nat, maxBytes: nat)
    requires n <= |ordered| && |t - Elements(ordered[..n])| == |ordered| - n
    ensures FitsFrom(t, ordered, n, maxCount, maxBytes) <==> |ordered| - n <= maxCount
                                                             && Weight(t - Elements(ordered[..n])) <= maxBytes
  {
  }

  lemma NextWeight<K(!new), V>(t: map<K, Slot<V>>, ordered: seq<K>, i: nat)
    requires NoRepeats(ordered) && Elements(ordered) == t.Keys && i < |ordered|
    ensures ordered[i] in t
    ensures Weight(t - Elements(ordered[..i])) == t[ordered[i]].weight + Weight(t - Elements(ordered[..i + 1]))
  {
    assert ordered[i] in Elements(ordered);
    assert ordered[..i + 1] == ordered[..i] + [ordered[i]];
    ElementsOfAppend(ordered[..i], [ordered[i]]);
    assert Elements([ordered[i]]) == {ordered[i]};
    assert ordered[i] !in ordered[..i];
    WeightRemove(t - Elements(ordered[..i]), ordered[i]);
    MinusTwice(t, Elements(ordered[..i]), {ordered[i]});
  }

  lemma CountFrom<K(!new), V>(t: map<K, Slot<V>>, ordered: seq<K>, n: nat)
    requires NoRepeats(ordered) && Elements(ordered) == t.Keys && n <= |ordered|
    ensures |t - Elements(ordered[..n])| == |ordered| - n
    ensures n == |ordered| ==> Weight(t - Elements(ordered[..n])) == 0
  {
    DistinctCount(ordered);
    DistinctCount(ordered[..n]);
    RemoveKeysSize(t, Elements(ordered[..n]));
    FrontSubset(ordered, n);
    assert Elements(ordered[..n]) * t.Keys == Elements(ordered[..n]);
    assert |t| == |t.Keys|;
    if n == |ordered| {
      assert ordered[..n] == ordered;
      assert t - Elements(ordered) == map[];
    }
  }

  lemma FrontSubset<K>(ordered: seq<K>, n: nat)
    requires n <= |ordered|
    ensures Elements(ordered[..n]) <= Elements(ordered)
  {
  }

  // ---------------------------------------------------------------- room

  /** A smaller table with the same weights leaves room for one more of the larger one. */
  lemma RoomInSub<K, V, W>(a: map<K, Slot<V>>, b: map<K, Slot<W>>, k: K)
    requires a.Keys <= b.Keys && (forall j :: j in a ==> a[j].weight == b[j].weight) && k in b && k !in a
    ensures Weight(a) + b[k].weight <= Weight(b) && |a| + 1 <= |b|
  {
    var part := Part(b, a.Keys);
    SameWeights(a, part);
    WeightInsert(part, k, b[k]);
    PartOneMore(b, a.Keys, k);
    PartWeight(b, a.Keys + {k});
    SubsetSize(a.Keys + {k}, b.Keys);
    assert |a| == |a.Keys| && |b| == |b.Keys|;
  }

  ghost function Part<K, V>(b: map<K, Slot<V>>, keys: set<K>): map<K, Slot<V>> {
    map k | k in keys && k in b :: b[k]
  }

  lemma PartOneMore<K, V>(b: map<K, Slot<V>>, keys: set<K>, k: K)
    requires k in b
    ensures Part(b, keys)[k := b[k]] == Part(b, keys + {k})
  {
  }

  lemma PartWeight<K, V>(b: map<K, Slot<V>>, keys: set<K>)
    ensures Weight(Part(b, keys)) <= Weight(b)
  {
    assert b - (b.Keys - keys) == Part(b, keys);
    WeightMonotone(b, b.Keys - keys);
  }

  lemma {:induction false} SameWeights<K, V, W>(a: map<K, Slot<V>>, b: map<K, Slot<W>>)
    requires a.Keys == b.Keys && forall j :: j in a ==> a[j].weight == b[j].weight
    ensures Weight(a) == Weight(b)
    decreases |a|
  {
    if a == map[] {
      assert b == map[];
    } else {
      var k :| k in a;
      WeightRemove(a, k);
      WeightRemove(b, k);
      SameWeights(a - {k}, b - {k});
    }
  }

  /** Where there is room, nothing is evicted. */
  lemma NoEviction<K(!new), V>(t: map<K, Slot<V>>, dropped: set<K>, room: Room)
    requires Fits(t, room) && IsShortestPrefix(t, dropped, room)
    ensures dropped == {}
  {
    assert t - {} == t;
    assert IsPrefix(t, {});
    assert dropped == {} || {} < dropped;
  }

  // ---------------------------------------------------------------- the records found

  ghost predicate EntersAs<G>(kept: C.Kept, slot: Slot<RecordInfo<G>>) {
    slot.value.name == kept.name && slot.value.inode == kept.inode && slot.stamp == kept.stamp
  }

  ghost predicate Enters<K(!new), G>(dir: Dir, s: C.Scan<K>, t: map<K, Slot<RecordInfo<G>>>) {
    t.Keys == s.found.Keys && forall k :: k in t ==> EntersAs(s.found[k], t[k]) && FiledAt(dir.files, t[k])
  }

  /** The table of the records a scan has kept is filed, and its numbers are distinct. */
  lemma ScanFiles<K(!new), G>(dir: Dir, marks: map<nat, C.Mark<K>>, order: seq<Name>, s: C.Scan<K>,
                              t: map<K, Slot<RecordInfo<G>>>)
    requires dir.pending == [] && C.Unshared(dir.durable, marks) && Elements(order) == dir.durable.Keys
    requires C.Scanned(dir.durable, marks, order, order, s) && Enters(dir, s, t)
    ensures Filed(dir.(durable := s.names), t) && Distinct(t)
  {
    FoundDistinct(dir, marks, order, s, t);
    FoundListed(dir, marks, order, s, t);
    hide C.Scanned, C.Unshared, EntersAs, Lists, NamesDistinct;
  }

  lemma FoundDistinct<K(!new), G>(dir: Dir, marks: map<nat, C.Mark<K>>, order: seq<Name>, s: C.Scan<K>,
                                  t: map<K, Slot<RecordInfo<G>>>)
    requires C.Unshared(dir.durable, marks) && C.Scanned(dir.durable, marks, order, order, s) && Enters(dir, s, t)
    ensures NamesDistinct(t) && Distinct(t)
  {
    forall a, b | a in t && b in t && a != b
      ensures t[a].value.name != t[b].value.name && t[a].value.inode != t[b].value.inode && t[a].stamp != t[b].stamp
    {
      assert C.FoundAt(dir.durable, marks, order, s, a) && C.FoundAt(dir.durable, marks, order, s, b);
      hide C.FoundAt, C.Unshared, C.Scanned;
      C.FoundApart(dir.durable, marks, order, s, a, b);
      assert EntersAs(s.found[a], t[a]) && EntersAs(s.found[b], t[b]);
    }
  }

  lemma FoundListed<K(!new), G>(dir: Dir, marks: map<nat, C.Mark<K>>, order: seq<Name>, s: C.Scan<K>,
                                t: map<K, Slot<RecordInfo<G>>>)
    requires Elements(order) == dir.durable.Keys && C.Scanned(dir.durable, marks, order, order, s) && Enters(dir, s, t)
    ensures Lists(s.names, t)
  {
    hide C.Admissible, C.Newest;
    forall k | k in t
      ensures Listed(s.names, t[k].value)
    {
      assert C.FoundAt(dir.durable, marks, order, s, k) && EntersAs(s.found[k], t[k]);
    }
    forall n | n in s.names
      ensures Owned(t, n)
    {
      assert n in Elements(order);
      assert C.IsFound(s, n);
      var k :| k in s.found && s.found[k].name == n;
      assert EntersAs(s.found[k], t[k]);
    }
  }

  // ---------------------------------------------------------------- within the quotas

  /** What trimming leaves of a table, and in which order it will be restored: the shortest
      oldest prefix goes whose removal meets the quotas. */
  ghost predicate Trimmed<K(!new), V>(table: map<K, Slot<V>>, kept: map<K, Slot<V>>, list: seq<K>, maxCount: nat,
                                      maxBytes: nat) {
    && Sub(kept, table) && IsShortestPrefix(table, table.Keys - kept.Keys, Limit(maxCount, maxBytes))
    && OldestFirst(kept, list) && Elements(list) == kept.Keys
  }

  /** What is left is within the quotas, and everything if everything was. */
  lemma TrimmedFits<K(!new), V>(table: map<K, Slot<V>>, kept: map<K, Slot<V>>, list: seq<K>, maxCount: nat,
                                maxBytes: nat)
    requires Trimmed(table, kept, list, maxCount, maxBytes)
    ensures |kept| <= maxCount && Weight(kept) <= maxBytes
    ensures |table| <= maxCount && Weight(table) <= maxBytes ==> kept == table
  {
    hide NoShorterFits, OldestFirst, IsPrefix;
    assert table - (table.Keys - kept.Keys) == kept;
    if |table| <= maxCount && Weight(table) <= maxBytes {
      NoEviction(table, table.Keys - kept.Keys, Limit(maxCount, maxBytes));
    }
  }

  /** Sorts the records found, removes the oldest ones until the quotas hold, and syncs the
      root if anything was removed. */
  method TrimRoot<K(==, !new), G(==, !new)>(root: R.Root, table: map<K, Slot<RecordInfo<G>>>, maxFiles: nat,
                                            maxBytes: nat, ghost before: Dir, ghost gone: seq<Name>)
    returns (list: seq<K>, ghost kept: map<K, Slot<RecordInfo<G>>>, ghost extra: seq<Name>)
    requires root.Valid() && before.pending == [] && root.dir == before.(pending := R.Unlinks(gone))
    requires Filed(before.(durable := before.durable - Elements(gone)), table) && Distinct(table)
    modifies root
    ensures root.Valid() && root.nextId == old(root.nextId)
    ensures Filed(root.dir, kept) && root.dir.files == before.files
    ensures Trimmed(table, kept, list, maxFiles, maxBytes)
    ensures root.dir.durable == before.durable - Elements(gone + extra)
    ensures root.trail == old(root.trail) + TrailOf(old(root.dir), R.Unlinks(extra))
              + (if gone + extra == [] then [] else [root.dir])
  {
    hide TrailOf, Filed, R.UsedBelow, R.Unlinks, Elements, OldestFirst, FitsFrom, NoneBefore, Weight, Trimmed, NameSet,
         Distinct, NoRepeats;
    var ordered := InOrder(table);
    OldestFirstNoRepeats(table, ordered);
    var n := Trim(table, ordered, maxFiles, maxBytes);
    extra := [];
    R.NoUnlinks(root.dir);
    NothingCut(table, ordered, gone);
    for i := 0 to n
      invariant root.Valid() && root.nextId == old(root.nextId)
      invariant root.dir == before.(pending := R.Unlinks(gone + extra))
      invariant Elements(extra) == NameSet(table, Elements(ordered[..i]))
      invariant root.trail == old(root.trail) + TrailOf(old(root.dir), R.Unlinks(extra))
    {
      CutOneMore(before, root.dir.pending, root.nextId, table, ordered, i, gone, extra);
      CutTrail(before, gone, extra, table[ordered[i]].value.name);
      root.Unlink(table[ordered[i]].value.name);
      extra := extra + [table[ordered[i]].value.name];
    }
    if root.dir.pending != [] {
      root.Fsync();
    }
    list := ordered[n..];
    kept := table - Elements(ordered[..n]);
    SyncedCut(before, gone, extra, table, Elements(ordered[..n]));
    SyncedNames(before, gone + extra);
    TrimmedBy(table, ordered, n, maxFiles, maxBytes);
  }

  lemma CutTrail(before: Dir, gone: seq<Name>, extra: seq<Name>, n: Name)
    ensures var d := before.(pending := R.Unlinks(gone));
            TrailOf(d, R.Unlinks(extra + [n])) == TrailOf(d, R.Unlinks(extra))
              + [before.(pending := R.Unlinks(gone + (extra + [n])))]
  {
    hide TrailOf;
    RS.UnlinkOneMore(extra, n);
    TrailOneMore(before.(pending := R.Unlinks(gone)), R.Unlinks(extra), Unlink(n));
    assert R.Unlinks(gone + (extra + [n])) == R.Unlinks(gone) + R.Unlinks(extra) + [Unlink(n)];
  }

  lemma SyncedNames(before: Dir, gone: seq<Name>)
    requires before.pending == []
    ensures Synced(before.(pending := R.Unlinks(gone))).durable == before.durable - Elements(gone)
    ensures (gone == [] <==> R.Unlinks(gone) == [])
            && (gone == [] ==> before.durable == before.durable - Elements(gone))
  {
    R.ViewOfUnlinks(before.durable, gone);
    assert |R.Unlinks(gone)| == |gone|;
  }

  lemma NothingCut<K(!new), G>(table: map<K, Slot<RecordInfo<G>>>, ordered: seq<K>, gone: seq<Name>)
    ensures gone + [] == gone && Elements<Name>([]) == NameSet(table, Elements(ordered[..0]))
  {
  }

  lemma CutOneMore<K(!new), G>(before: Dir, pending: seq<Op>, nextId: nat, table: map<K, Slot<RecordInfo<G>>>,
                               ordered: seq<K>, i: nat, gone: seq<Name>, extra: seq<Name>)
    requires R.UsedBelow(before.(pending := pending), nextId) && i < |ordered| && Elements(ordered) == table.Keys
    requires Filed(before.(durable := before.durable - Elements(gone)), table)
    requires Elements(extra) == NameSet(table, Elements(ordered[..i]))
    ensures ordered[i] in table && table[ordered[i]].value.name.id < nextId
    ensures var n := table[ordered[i]].value.name;
            && Elements(extra + [n]) == NameSet(table, Elements(ordered[..i + 1]))
            && R.Unlinks(gone + (extra + [n])) == R.Unlinks(gone + extra) + [Unlink(n)]
  {
    assert ordered[i] in Elements(ordered);
    var n := table[ordered[i]].value.name;
    assert Listed(before.durable - Elements(gone), table[ordered[i]].value);
    hide Filed, R.UsedBelow;
    assert ordered[..i + 1] == ordered[..i] + [ordered[i]];
    ElementsOfAppend(ordered[..i], [ordered[i]]);
    assert Elements([ordered[i]]) == {ordered[i]};
    RS.GoneOneMore(table, Elements(ordered[..i]), extra, Elements(ordered[..i + 1]), ordered[i]);
    assert gone + (extra + [n]) == gone + extra + [n];
    RS.UnlinkOneMore(gone + extra, n);
  }

  lemma SyncedCut<K(!new), G>(before: Dir, gone: seq<Name>, extra: seq<Name>, table: map<K, Slot<RecordInfo<G>>>,
                              keys: set<K>)
    requires before.pending == [] && Filed(before.(durable := before.durable - Elements(gone)), table)
             && Elements(extra) == NameSet(table, keys)
    ensures Filed(Synced(before.(pending := R.Unlinks(gone + extra))), table - keys)
    ensures R.Unlinks(gone + extra) == [] ==> Filed(before.(pending := R.Unlinks(gone + extra)), table - keys)
  {
    R.ViewOfUnlinks(before.durable, gone + extra);
    ElementsOfAppend(gone, extra);
    FiledDrop(before.(durable := before.durable - Elements(gone)), table, keys);
    assert before.durable - Elements(gone) - NameSet(table, keys) == before.durable - Elements(gone + extra);
    assert |R.Unlinks(gone + extra)| == |gone + extra|;
    assert gone + extra == [] ==> Elements(gone + extra) == {} && before.durable - {} == before.durable;
    hide Filed;
  }

  lemma TrimmedBy<K(!new), V>(table: map<K, Slot<V>>, ordered: seq<K>, n: nat, maxCount: nat, maxBytes: nat)
    requires n <= |ordered| && FitsFrom(table, ordered, n, maxCount, maxBytes)
             && NoneBefore(table, ordered, n, maxCount, maxBytes)
    requires NoRepeats(ordered) && Elements(ordered) == table.Keys && OldestFirst(table, ordered)
    ensures Trimmed(table, table - Elements(ordered[..n]), ordered[n..], maxCount, maxBytes)
  {
    hide NoneBefore, OldestFirst, IsPrefix, Weight, NoRepeats, Elements, NoShorterFits;
    CutSplits(ordered, n);
    CutIsPrefix(table, ordered, n);
    CutTable(table, Elements(ordered[..n]));
    CutShortest(table, ordered, n, maxCount, maxBytes);
  }

  lemma CutShortest<K(!new), V>(table: map<K, Slot<V>>, ordered: seq<K>, n: nat, maxCount: nat, maxBytes: nat)
    requires n <= |ordered| && NoneBefore(table, ordered, n, maxCount, maxBytes)
    requires NoRepeats(ordered) && Elements(ordered) == table.Keys && OldestFirst(table, ordered)
    ensures NoShorterFits(table, Elements(ordered[..n]), Limit(maxCount, maxBytes))
  {
    hide Weight, IsPrefix, OldestFirst, NoRepeats, Elements;
    forall shorter: set<K> | IsPrefix(table, shorter) && shorter < Elements(ordered[..n])
      ensures !Fits(table - shorter, Limit(maxCount, maxBytes))
    {
      var m := PrefixIsCut(table, ordered, n, shorter);
      assert !FitsFrom(table, ordered, m, maxCount, maxBytes);
    }
  }

  /** A prefix of the table is the front of the list. */
  lemma PrefixIsCut<K(!new), V>(table: map<K, Slot<V>>, ordered: seq<K>, n: nat, shorter: set<K>) returns (m: nat)
    requires NoRepeats(ordered) && Elements(ordered) == table.Keys && OldestFirst(table, ordered) && n <= |ordered|
    requires IsPrefix(table, shorter) && shorter < Elements(ordered[..n])
    ensures m < n && shorter == Elements(ordered[..m])
  {
    hide IsPrefix, OldestFirst, Elements;
    m := |shorter|;
    DistinctCount(ordered[..n]);
    StrictlyFewer(shorter, Elements(ordered[..n]));
    CutIsPrefix(table, ordered, m);
    DistinctCount(ordered[..m]);
    PrefixesNest(table, shorter, Elements(ordered[..m]));
    if shorter <= Elements(ordered[..m]) {
      SameSizeSubset(shorter, Elements(ordered[..m]));
    } else {
      SameSizeSubset(Elements(ordered[..m]), shorter);
    }
  }

  lemma StrictlyFewer<T>(a: set<T>, b: set<T>)
    requires a < b
    ensures |a| < |b|
  {
    var x :| x in b && x !in a;
    SubsetSize(a, b - {x});
  }

  lemma SameSizeSubset<T>(a: set<T>, b: set<T>)
    requires a <= b && |a| == |b|
    ensures a == b
  {
    if a != b {
      StrictlyFewer(a, b);
    }
  }

  lemma CutTable<K, V>(table: map<K, V>, front: set<K>)
    requires front <= table.Keys
    ensures Sub(table - front, table) && (table - front).Keys == table.Keys - front
            && table.Keys - (table.Keys - front) == front
  {
  }

  lemma CutSplits<K(!new)>(ordered: seq<K>, n: nat)
    requires NoRepeats(ordered) && n <= |ordered|
    ensures Elements(ordered[..n]) <= Elements(ordered)
    ensures Elements(ordered[n..]) == Elements(ordered) - Elements(ordered[..n])
  {
    assert ordered == ordered[..n] + ordered[n..];
    ElementsOfAppend(ordered[..n], ordered[n..]);
    forall x | x in Elements(ordered[..n])
      ensures x !in Elements(ordered[n..])
    {
      var i :| 0 <= i < n && ordered[i] == x;
      assert forall j :: n <= j < |ordered| ==> ordered[j] != x;
    }
  }

  lemma CutIsPrefix<K(!new), V>(table: map<K, Slot<V>>, ordered: seq<K>, n: nat)
    requires n <= |ordered| && NoRepeats(ordered) && Elements(ordered) == table.Keys && OldestFirst(table, ordered)
    ensures IsPrefix(table, Elements(ordered[..n]))
    ensures OldestFirst(table - Elements(ordered[..n]), ordered[n..])
  {
    CutSplits(ordered, n);
    forall a, b | a in Elements(ordered[..n]) && b in table && b !in Elements(ordered[..n])
      ensures table[a].stamp < table[b].stamp
    {
      assert b in Elements(ordered[n..]);
      var i :| 0 <= i < n && ordered[i] == a;
      var j :| 0 <= j < |ordered[n..]| && ordered[n..][j] == b;
    }
    forall j | 0 <= j < |ordered[n..]|
      ensures ordered[n..][j] in table - Elements(ordered[..n])
    {
      assert ordered[n..][j] in Elements(ordered[n..]);
    }
  }

  // ---------------------------------------------------------------- directories of a known table

  ghost predicate MarkedAt<K(!new), G>(marks: map<nat, C.Mark<K>>, d: map<K, Slot<RecordInfo<G>>>, k: K)
    requires k in d
  {
    d[k].value.name.Rec? && (d[k].value.inode in marks ==> marks[d[k].value.inode] == C.Mark(k, d[k].stamp))
  }

  /** The records in the directory are those of the table, and reading one gives its key and
      number, if anything. There may be temporary names as well. */
  ghost predicate Holds<K(!new), G>(names: map<Name, nat>, marks: map<nat, C.Mark<K>>, d: map<K, Slot<RecordInfo<G>>>) {
    && NamesDistinct(d) && Distinct(d)
    && (forall k :: k in d ==> Listed(names, d[k].value) && MarkedAt(marks, d, k))
    && forall n :: n in names && n.Rec? ==> Owned(d, n)
  }

  lemma OwnerOf<K(!new), G>(names: map<Name, nat>, marks: map<nat, C.Mark<K>>, d: map<K, Slot<RecordInfo<G>>>, n: Name)
    returns (k: K)
    requires Holds(names, marks, d) && n in names && n.Rec?
    ensures k in d && d[k].value.name == n && d[k].value.inode == names[n] && MarkedAt(marks, d, k)
  {
    assert Owned(d, n);
    k :| k in d && d[k].value.name == n;
    assert Listed(names, d[k].value);
  }

  lemma HoldsUnshared<K(!new), G>(names: map<Name, nat>, marks: map<nat, C.Mark<K>>, d: map<K, Slot<RecordInfo<G>>>)
    requires Holds(names, marks, d)
    ensures C.Unshared(names, marks)
  {
    forall m, n | m in names && n in names && m.Rec? && n.Rec? && m != n
      ensures names[m] != names[n]
      ensures names[m] in marks && names[n] in marks ==> marks[names[m]].stamp != marks[names[n]].stamp
    {
      var a := OwnerOf(names, marks, d, m);
      var b := OwnerOf(names, marks, d, n);
    }
  }

  /** A scan of such a directory keeps records of the table. */
  lemma HoldsFound<K(!new), G>(names: map<Name, nat>, marks: map<nat, C.Mark<K>>, d: map<K, Slot<RecordInfo<G>>>,
                               order: seq<Name>, s: C.Scan<K>, k: K)
    requires Holds(names, marks, d) && C.Scanned(names, marks, order, order, s) && k in s.found
    ensures k in d && EntersAs(s.found[k], d[k]) && d[k].value.inode in marks
  {
    assert C.FoundAt(names, marks, order, s, k);
    hide C.Scanned, Holds;
    var owner := OwnerOf(names, marks, d, s.found[k].name);
  }

  /** A readable record whose file has no other name is kept. */
  lemma SoleIsFound<K(!new), G>(names: map<Name, nat>, marks: map<nat, C.Mark<K>>, d: map<K, Slot<RecordInfo<G>>>,
                                order: seq<Name>, s: C.Scan<K>, k: K)
    requires Holds(names, marks, d) && C.Scanned(names, marks, order, order, s) && Elements(order) == names.Keys
    requires k in d && d[k].value.inode in marks && d[k].value.name in names && C.SoleName(names, d[k].value.name)
    ensures k in s.found
  {
    assert Listed(names, d[k].value) && MarkedAt(marks, d, k);
    assert d[k].value.name in Elements(order);
    assert C.Admissible(names, marks, order, d[k].value.name);
    assert C.Newest(names, marks, s, d[k].value.name);
  }
}
