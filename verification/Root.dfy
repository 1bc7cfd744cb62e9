/** The cache root: filesystem steps as methods on a directory object. The ghost trail
    records the directory after every single step, so a postcondition can speak about every
    point at which the process may crash. Filesystem calls are taken to succeed. */
module Root {
  import opened Prelude
  import opened Sets
  import opened Directory

  /** All names and inodes in use are below `n`: fresh ones stand for new UUIDs and inodes. */
  ghost predicate UsedBelow(d: Dir, n: nat) {
    && (forall name :: name in d.durable ==> name.id < n && d.durable[name] < n)
    && (forall i :: 0 <= i < |d.pending| ==> d.pending[i].name.id < n
                                             && (d.pending[i].Link? ==> d.pending[i].inode < n))
    && forall i :: i in d.files ==> i < n
  }

  /** Every crash at `d` leaves a directory between the bounds whose records are complete. */
  ghost predicate Survives(d: Dir, lo: map<Name, nat>, hi: map<Name, nat>, contents: map<nat, Bytes>) {
    forall names :: CrashLeaves(d, names) ==> Sub(lo, names) && Sub(names, hi) && Whole(d, names, contents)
  }

  /** Every record name leads to a synced file with the expected bytes. */
  ghost predicate Whole(d: Dir, names: map<Name, nat>, contents: map<nat, Bytes>) {
    forall n :: n in names && n.Rec? ==>
      names[n] in contents && names[n] in d.files && d.files[names[n]] == File(contents[names[n]], true)
  }

  lemma SurvivesBetween(d: Dir, lo: map<Name, nat>, mid: map<Name, nat>, hi: map<Name, nat>, contents: map<nat, Bytes>)
    requires Between(d, lo, mid) && Sub(mid, hi) && Whole(d, mid, contents)
    ensures Survives(d, lo, hi, contents)
  {
    forall names | CrashLeaves(d, names)
      ensures Sub(lo, names) && Sub(names, hi) && Whole(d, names, contents)
    {
      CrashBetween(d, lo, mid, names);
    }
  }

  class Root {
    var dir: Dir
    var nextId: nat
    ghost var trail: seq<Dir>

    constructor (names: map<Name, nat>, files: map<nat, File>, nextId: nat)
      requires UsedBelow(Dir(names, [], files), nextId)
      ensures dir == Dir(names, [], files) && this.nextId == nextId && trail == []
    {
      dir := Dir(names, [], files);
      this.nextId := nextId;
      trail := [];
    }

    ghost predicate Valid()
      reads this
    {
      UsedBelow(dir, nextId)
    }

    /** `unlinkat`. */
    method Unlink(name: Name)
      requires Valid() && name.id < nextId
      modifies this
      ensures Valid() && nextId == old(nextId)
      ensures dir == Unlinked(old(dir), name) && trail == old(trail) + [dir]
    {
      dir := Unlinked(dir, name);
      trail := trail + [dir];
    }

    /** `openat` with `O_CREAT | O_EXCL` under a fresh temporary name. */
    method CreateTemp() returns (name: Name, inode: nat)
      requires Valid()
      modifies this
      ensures Valid() && nextId == old(nextId) + 1
      ensures name == Temp(old(nextId)) && inode == old(nextId)
      ensures dir == Created(old(dir), name, inode) && trail == old(trail) + [dir]
    {
      name, inode := Temp(nextId), nextId;
      nextId := nextId + 1;
      dir := Created(dir, name, inode);
      trail := trail + [dir];
    }

    /** `write_all` followed by `sync_all` on the file. In between, any bytes may be on disk. */
    method WriteAndSync(inode: nat, bytes: Bytes)
      requires Valid() && inode < nextId
      modifies this
      ensures Valid() && nextId == old(nextId)
      ensures dir == Written(old(dir), inode, bytes, true)
      ensures trail == old(trail) + [Written(old(dir), inode, bytes, false), dir]
    {
      dir := Written(dir, inode, bytes, false);
      trail := trail + [dir];
      dir := Written(dir, inode, bytes, true);
      trail := trail + [dir];
    }

    /** `linkat` under a fresh record name. */
    method LinkRecord(sequence: nat, inode: nat) returns (name: Name)
      requires Valid() && inode < nextId
      modifies this
      ensures Valid() && nextId == old(nextId) + 1
      ensures name == Rec(sequence, old(nextId))
      ensures dir == Linked(old(dir), name, inode) && trail == old(trail) + [dir]
    {
      name := Rec(sequence, nextId);
      nextId := nextId + 1;
      dir := Linked(dir, name, inode);
      trail := trail + [dir];
    }

    /** `fsync` of the directory. */
    method Fsync()
      requires Valid()
      modifies this
      ensures Valid() && nextId == old(nextId)
      ensures dir == Synced(old(dir)) && trail == old(trail) + [dir]
    {
      ViewUsedBelow(dir.durable, dir.pending, nextId);
      dir := Synced(dir);
      trail := trail + [dir];
    }

    /** `Shared::publish`: write a temporary file, sync it, link it under its final name,
        unlink the temporary name, sync the directory. At every crash point the directory
        holds the old records, or those and the complete new one. */
    method Publish(bytes: Bytes, sequence: nat, ghost contents: map<nat, Bytes>)
      returns (name: Name, inode: nat, ghost temp: Name)
      requires Valid() && dir.pending == []
      requires Whole(dir, dir.durable, contents)
      modifies this
      ensures Valid() && nextId == old(nextId) + 2
      ensures name == Rec(sequence, old(nextId) + 1) && inode == old(nextId) && temp == Temp(old(nextId))
      ensures dir == Dir(old(dir).durable[name := inode], [], old(dir).files[inode := File(bytes, true)])
      ensures old(trail) <= trail
      ensures forall j :: |old(trail)| <= j < |trail| ==>
                Survives(trail[j], old(dir).durable, old(dir).durable[temp := inode][name := inode],
                         contents[inode := bytes])
    {
      hide Survives, Whole;
      ghost var before, both := dir, dir.durable[Temp(nextId) := nextId][Rec(sequence, nextId + 1) := nextId];
      ghost var more := contents[nextId := bytes];
      var tempName;
      tempName, inode := CreateTemp();
      temp := tempName;
      ghost var linking := [Link(temp, inode)];
      TempPoint(before, temp, Rec(sequence, nextId), inode, File([], false), bytes, contents);
      assert dir == Point(before, linking, inode, File([], false));
      WriteAndSync(inode, bytes);
      TempPoint(before, temp, Rec(sequence, nextId), inode, File(bytes, false), bytes, contents);
      TempPoint(before, temp, Rec(sequence, nextId), inode, File(bytes, true), bytes, contents);
      assert trail[|old(trail)| + 1] == Point(before, linking, inode, File(bytes, false));
      assert dir == Point(before, linking, inode, File(bytes, true));
      name := LinkRecord(sequence, inode);
      LinkedPoint(before, temp, name, inode, [], bytes, contents);
      assert dir == Point(before, linking + [Link(name, inode)] + [], inode, File(bytes, true));
      Unlink(tempName);
      LinkedPoint(before, temp, name, inode, [Op.Unlink(temp)], bytes, contents);
      assert dir == Point(before, linking + [Link(name, inode)] + [Op.Unlink(temp)], inode, File(bytes, true));
      Fsync();
      DonePoint(before, temp, name, inode, bytes, contents);
      assert |trail| == |old(trail)| + 6;
    }
  }

  // ---------------------------------------------------------------- lemmas

  lemma {:induction false} ViewUsedBelow(names: map<Name, nat>, ops: seq<Op>, n: nat)
    requires forall name :: name in names ==> name.id < n && names[name] < n
    requires forall i :: 0 <= i < |ops| ==> ops[i].name.id < n && (ops[i].Link? ==> ops[i].inode < n)
    ensures forall name :: name in View(names, ops) ==> name.id < n && View(names, ops)[name] < n
  {
    if ops != [] {
      ViewUsedBelow(names, ops[..|ops| - 1], n);
    }
  }

  function Unlinks(doomed: seq<Name>): seq<Op> {
    seq(|doomed|, i requires 0 <= i < |doomed| => Unlink(doomed[i]))
  }

  /** Part of a set of names has been unlinked. */
  lemma UnlinkPoint(before: Dir, gone: seq<Name>, doomed: set<Name>, contents: map<nat, Bytes>)
    requires before.pending == [] && Elements(gone) <= doomed && Whole(before, before.durable, contents)
    ensures Survives(before.(pending := Unlinks(gone)), before.durable - doomed, before.durable, contents)
  {
    var d := before.(pending := Unlinks(gone));
    assert forall i :: 0 <= i < |gone| ==> gone[i] in Elements(gone);
    SurvivesBetween(d, before.durable - doomed, before.durable, before.durable, contents);
  }

  /** All of them have, and the directory is synced. */
  lemma UnlinkedPoint(before: Dir, gone: seq<Name>, contents: map<nat, Bytes>)
    requires before.pending == [] && Whole(before, before.durable, contents)
    ensures var d := Synced(before.(pending := Unlinks(gone)));
            && d == before.(durable := before.durable - Elements(gone))
            && Survives(d, before.durable - Elements(gone), before.durable, contents)
  {
    ViewOfUnlinks(before.durable, gone);
    var rest := before.durable - Elements(gone);
    SurvivesBetween(before.(durable := rest), rest, rest, before.durable, contents);
  }

  lemma NoUnlinks(d: Dir)
    ensures Unlinks([]) == [] && TrailOf(d, Unlinks([])) == []
  {
  }

  /** Unlinking names only takes them away. */
  lemma {:induction false} UnlinksShrink(d: Dir, gone: seq<Name>, n: nat)
    requires d.pending == [] && n <= |gone|
    ensures Shrinking(TrailOf(d, Unlinks(gone[..n])), 0, d.files, d.durable - Elements(gone), d.durable)
  {
    hide Between, Elements, Unlinks, TrailOf;
    if n == 0 {
      assert gone[..0] == [];
      NoUnlinks(d);
    } else {
      UnlinksShrink(d, gone, n - 1);
      UnlinkedBetween(d, gone, n);
      OneMoreUnlink(gone, n);
      TrailOneMore(d, Unlinks(gone[..n - 1]), Unlink(gone[n - 1]));
      assert d.pending + Unlinks(gone[..n - 1]) + [Unlink(gone[n - 1])] == Unlinks(gone[..n]);
    }
  }

  lemma OneMoreUnlink(gone: seq<Name>, n: nat)
    requires 0 < n <= |gone|
    ensures Unlinks(gone[..n]) == Unlinks(gone[..n - 1]) + [Unlink(gone[n - 1])]
  {
  }

  lemma UnlinkedBetween(d: Dir, gone: seq<Name>, n: nat)
    requires d.pending == [] && n <= |gone|
    ensures Between(d.(pending := Unlinks(gone[..n])), d.durable - Elements(gone), d.durable)
  {
    var pending := Unlinks(gone[..n]);
    forall i | 0 <= i < |pending|
      ensures Within(pending[i], d.durable - Elements(gone), d.durable)
    {
      assert pending[i] == Unlink(gone[i]) && gone[i] in Elements(gone);
    }
  }

  lemma {:induction false} ViewOfUnlinks(names: map<Name, nat>, doomed: seq<Name>)
    ensures View(names, Unlinks(doomed)) == names - Elements(doomed)
  {
    if doomed == [] {
      assert names - Elements(doomed) == names;
    } else {
      var front, last := doomed[..|doomed| - 1], doomed[|doomed| - 1];
      ViewOfUnlinks(names, front);
      assert Unlinks(doomed)[..|doomed| - 1] == Unlinks(front);
      assert doomed == front + [last];
      ElementsOfAppend(front, [last]);
      assert Elements([last]) == {last};
      assert names - Elements(front) - {last} == names - Elements(doomed);
    }
  }

  lemma PublishView(names: map<Name, nat>, temp: Name, name: Name, inode: nat)
    requires temp !in names && temp != name
    ensures View(names, [Link(temp, inode), Link(name, inode), Unlink(temp)]) == names[name := inode]
  {
    var ops := [Link(temp, inode), Link(name, inode), Unlink(temp)];
    assert ops[..2] == [Link(temp, inode), Link(name, inode)];
    assert ops[..2][..1] == [Link(temp, inode)];
    assert ops[..2][..1][..0] == [];
    assert View(names, ops[..2][..1]) == names[temp := inode];
    assert View(names, ops[..2]) == names[temp := inode][name := inode];
    assert names[temp := inode][name := inode] - {temp} == names[name := inode];
  }

  // The directory at the crash points of `publish`.

  ghost function Point(before: Dir, pending: seq<Op>, inode: nat, file: File): Dir {
    Dir(before.durable, pending, before.files[inode := file])
  }

  lemma PointSurvives(before: Dir, d: Dir, mid: map<Name, nat>, hi: map<Name, nat>, inode: nat,
                      contents: map<nat, Bytes>)
    requires inode !in before.files && inode in contents && Between(d, before.durable, mid) && Sub(mid, hi)
    requires Whole(before, before.durable, contents - {inode})
    requires forall i :: i in before.files ==> i in d.files && d.files[i] == before.files[i]
    requires forall n :: n in mid && n.Rec? ==>
               n in before.durable
               || (mid[n] == inode && inode in d.files && d.files[inode] == File(contents[inode], true))
    ensures Survives(d, before.durable, hi, contents)
  {
    assert Whole(d, mid, contents);
    SurvivesBetween(d, before.durable, mid, hi, contents);
  }

  /** The temporary name is linked; the file may hold anything. */
  lemma TempPoint(before: Dir, temp: Name, name: Name, inode: nat, file: File, bytes: Bytes, contents: map<nat, Bytes>)
    requires before.pending == [] && temp.Temp? && name.Rec?
    requires temp !in before.durable && name !in before.durable
    requires inode !in before.files && Whole(before, before.durable, contents)
    ensures Survives(Point(before, [Link(temp, inode)], inode, file), before.durable,
              before.durable[temp := inode][name := inode], contents[inode := bytes])
  {
    var half := before.durable[temp := inode];
    PointSurvives(before, Point(before, [Link(temp, inode)], inode, file), half, half[name := inode], inode,
                  contents[inode := bytes]);
  }

  /** The record name is linked to the complete file; the temporary name may be gone. */
  lemma LinkedPoint(before: Dir, temp: Name, name: Name, inode: nat, tail: seq<Op>, bytes: Bytes,
                    contents: map<nat, Bytes>)
    requires before.pending == [] && temp.Temp? && name.Rec?
    requires temp !in before.durable && name !in before.durable
    requires inode !in before.files && Whole(before, before.durable, contents)
    requires tail == [] || tail == [Unlink(temp)]
    ensures Survives(Point(before, [Link(temp, inode)] + [Link(name, inode)] + tail, inode, File(bytes, true)),
                     before.durable,
              before.durable[temp := inode][name := inode], contents[inode := bytes])
  {
    var both := before.durable[temp := inode][name := inode];
    PointSurvives(before, Point(before, [Link(temp, inode)] + [Link(name, inode)] + tail, inode, File(bytes, true)),
                  both, both, inode, contents[inode := bytes]);
  }

  /** The directory is synced. */
  lemma DonePoint(before: Dir, temp: Name, name: Name, inode: nat, bytes: Bytes, contents: map<nat, Bytes>)
    requires before.pending == [] && temp.Temp? && name.Rec?
    requires temp !in before.durable && name !in before.durable
    requires inode !in before.files && Whole(before, before.durable, contents)
    ensures var d :=
      Synced(Point(before, [Link(temp, inode)] + [Link(name, inode)] + [Unlink(temp)], inode, File(bytes, true)));
            && d == Dir(before.durable[name := inode], [], before.files[inode := File(bytes, true)])
            && Survives(d, before.durable, before.durable[temp := inode][name := inode], contents[inode := bytes])
  {
    PublishView(before.durable, temp, name, inode);
    assert [Link(temp, inode)] + [Link(name, inode)]
             + [Unlink(temp)] == [Link(temp, inode), Link(name, inode), Unlink(temp)];
    var d := Dir(before.durable[name := inode], [], before.files[inode := File(bytes, true)]);
    PointSurvives(before, d, before.durable[name := inode], before.durable[temp := inode][name := inode], inode,
                  contents[inode := bytes]);
  }
}
