/** A directory that can crash. Names become durable only at `fsync`; a crash keeps any
    subset, in order, of the link and unlink operations issued since the last one. File
    contents are safe once the file itself was synced. */
module Directory {
  import opened Prelude

  datatype Name = Temp(id: nat) | Rec(sequence: nat, id: nat)

  datatype Op = Link(name: Name, inode: nat) | Unlink(name: Name)

  datatype File = File(bytes: Bytes, synced: bool)

  datatype Dir = Dir(durable: map<Name, nat>, pending: seq<Op>, files: map<nat, File>)

  function Apply(names: map<Name, nat>, op: Op): map<Name, nat> {
    match op
    case Link(name, inode) => names[name := inode]
    case Unlink(name) => names - {name}
  }

  /** What the running process sees. */
  function View(names: map<Name, nat>, ops: seq<Op>): map<Name, nat> {
    if ops == [] then names else Apply(View(names, ops[..|ops| - 1]), ops[|ops| - 1])
  }

  /** `left` results from `names` when each operation, in order, either reached the disk or
      was lost. */
  ghost predicate Leaves(names: map<Name, nat>, ops: seq<Op>, left: map<Name, nat>)
    decreases |ops|
  {
    if ops == [] then left == names
    else Leaves(names, ops[1..], left) || Leaves(Apply(names, ops[0]), ops[1..], left)
  }

  /** `left` is a directory a crash may leave behind. */
  ghost predicate CrashLeaves(d: Dir, left: map<Name, nat>) {
    Leaves(d.durable, d.pending, left)
  }

  // ---------------------------------------------------------------- steps

  function Unlinked(d: Dir, name: Name): Dir {
    d.(pending := d.pending + [Unlink(name)])
  }

  function Linked(d: Dir, name: Name, inode: nat): Dir {
    d.(pending := d.pending + [Link(name, inode)])
  }

  function Created(d: Dir, name: Name, inode: nat): Dir {
    d.(pending := d.pending + [Link(name, inode)], files := d.files[inode := File([], false)])
  }

  function Written(d: Dir, inode: nat, bytes: Bytes, synced: bool): Dir {
    d.(files := d.files[inode := File(bytes, synced)])
  }

  function Synced(d: Dir): Dir {
    d.(durable := View(d.durable, d.pending), pending := [])
  }

  // ---------------------------------------------------------------- bounds on crashes

  ghost predicate Sub<K, V>(a: map<K, V>, b: map<K, V>) {
    forall k :: k in a ==> k in b && a[k] == b[k]
  }

  /** An operation that cannot leave the bounds. */
  ghost predicate Within(op: Op, lo: map<Name, nat>, hi: map<Name, nat>) {
    match op
    case Link(name, inode) => name in hi && hi[name] == inode
    case Unlink(name) => name !in lo
  }

  /** Whatever subset of the pending operations survives, the directory holds at least `lo`
      and at most `hi`. */
  ghost predicate Between(d: Dir, lo: map<Name, nat>, hi: map<Name, nat>) {
    && Sub(lo, hi) && Sub(lo, d.durable) && Sub(d.durable, hi)
    && forall i :: 0 <= i < |d.pending| ==> Within(d.pending[i], lo, hi)
  }

  lemma {:induction false} LeavesWithin(names: map<Name, nat>, ops: seq<Op>, left: map<Name, nat>, lo: map<Name, nat>,
                                        hi: map<Name, nat>)
    requires Sub(lo, hi) && Sub(lo, names) && Sub(names, hi) && Leaves(names, ops, left)
    requires forall i :: 0 <= i < |ops| ==> Within(ops[i], lo, hi)
    ensures Sub(lo, left) && Sub(left, hi)
    decreases |ops|
  {
    if ops != [] {
      if Leaves(names, ops[1..], left) {
        LeavesWithin(names, ops[1..], left, lo, hi);
      } else {
        assert Within(ops[0], lo, hi);
        LeavesWithin(Apply(names, ops[0]), ops[1..], left, lo, hi);
      }
    }
  }

  /** Every crash leaves a directory between the bounds. */
  lemma CrashBetween(d: Dir, lo: map<Name, nat>, hi: map<Name, nat>, left: map<Name, nat>)
    requires Between(d, lo, hi) && CrashLeaves(d, left)
    ensures Sub(lo, left) && Sub(left, hi)
  {
    LeavesWithin(d.durable, d.pending, left, lo, hi);
  }

  /** The directory after each of these operations. */
  ghost function TrailOf(d: Dir, ops: seq<Op>): seq<Dir> {
    if ops == [] then [] else TrailOf(d, ops[..|ops| - 1]) + [d.(pending := d.pending + ops)]
  }

  lemma TrailOneMore(d: Dir, ops: seq<Op>, op: Op)
    ensures TrailOf(d, ops + [op]) == TrailOf(d, ops) + [d.(pending := d.pending + ops + [op])]
  {
    assert (ops + [op])[..|ops|] == ops && d.pending + (ops + [op]) == d.pending + ops + [op];
  }

  lemma {:induction false} TrailJoin(d: Dir, a: seq<Op>, b: seq<Op>)
    ensures TrailOf(d, a + b) == TrailOf(d, a) + TrailOf(d.(pending := d.pending + a), b)
  {
    if b == [] {
      assert a + b == a;
    } else {
      var front, last := b[..|b| - 1], b[|b| - 1];
      assert b == front + [last] && a + b == a + front + [last];
      TrailJoin(d, a, front);
      TrailOneMore(d, a + front, last);
      TrailOneMore(d.(pending := d.pending + a), front, last);
      assert d.pending + (a + front) + [last] == d.pending + a + front + [last];
    }
  }

  /** Along this part of the trail nothing happens to files, and the names stay between the
      bounds whatever a crash keeps. */
  ghost predicate Shrinking(trail: seq<Dir>, from: nat, files: map<nat, File>, lo: map<Name, nat>, hi: map<Name, nat>) {
    forall j :: from <= j < |trail| ==> trail[j].files == files && Between(trail[j], lo, hi)
  }

  lemma ShrinkingJoin(first: seq<Dir>, rest: seq<Dir>, from: nat, files: map<nat, File>, lo: map<Name, nat>,
                      hi: map<Name, nat>)
    requires from <= |first| && Shrinking(first, from, files, lo, hi) && Shrinking(rest, 0, files, lo, hi)
    ensures Shrinking(first + rest, from, files, lo, hi)
  {
    hide Between;
  }

  lemma BetweenWider(d: Dir, lo: map<Name, nat>, hi: map<Name, nat>, lower: map<Name, nat>, higher: map<Name, nat>)
    requires Between(d, lo, hi) && Sub(lower, lo) && Sub(hi, higher)
    ensures Between(d, lower, higher)
  {
    forall i | 0 <= i < |d.pending|
      ensures Within(d.pending[i], lower, higher)
    {
      assert Within(d.pending[i], lo, hi);
    }
  }

  lemma ShrinkingWider(trail: seq<Dir>, from: nat, files: map<nat, File>, lo: map<Name, nat>, hi: map<Name, nat>,
                       lower: map<Name, nat>, higher: map<Name, nat>)
    requires Shrinking(trail, from, files, lo, hi) && Sub(lower, lo) && Sub(hi, higher)
    ensures Shrinking(trail, from, files, lower, higher)
  {
    hide Between, Sub;
    forall j | from <= j < |trail|
      ensures Between(trail[j], lower, higher)
    {
      BetweenWider(trail[j], lo, hi, lower, higher);
    }
  }

  /** A quiescent directory survives every crash unchanged. */
  lemma QuietCrash(d: Dir, names: map<Name, nat>)
    requires d.pending == [] && CrashLeaves(d, names)
    ensures names == d.durable
  {
  }
}
