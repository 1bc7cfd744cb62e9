/** The first pass of recovery (`scan_root`), generic in keys: one visit per directory entry,
    in any order. A visit removes temporary names, records that cannot be read or whose file
    has another name at that moment, and the older of two records with one key. */
module Scan {
  import opened Sets
  import opened Directory

  /** What reading a file yields: the key and the access number it was written with. */
  datatype Mark<K> = Mark(key: K, stamp: nat)

  datatype Kept = Kept(name: Name, inode: nat, stamp: nat)

  /** The names still there and the record kept for each key. */
  datatype Scan<K> = Scan(names: map<Name, nat>, found: map<K, Kept>)

  /** The file has this name only. */
  predicate SoleName(names: map<Name, nat>, n: Name)
    requires n in names
  {
    forall m :: m in names && names[m] == names[n] ==> m == n
  }

  function Without<K>(s: Scan<K>, n: Name): Scan<K> {
    s.(names := s.names - {n})
  }

  /** A record that can be kept, as far as the directory and its file go. */
  predicate Passes<K>(marks: map<nat, Mark<K>>, s: Scan<K>, n: Name) {
    n in s.names && n.Rec? && s.names[n] in marks && SoleName(s.names, n)
  }

  /** One turn of the loop; `marks` gives what the readable files say. */
  function Visit<K(==)>(marks: map<nat, Mark<K>>, s: Scan<K>, n: Name): Scan<K> {
    if !Passes(marks, s, n) then Without(s, n)
    else
      var inode := s.names[n];
      var mark := marks[inode];
      if mark.key !in s.found then s.(found := s.found[mark.key := Kept(n, inode, mark.stamp)])
      else if s.found[mark.key].stamp < mark.stamp
      then Scan(s.names - {s.found[mark.key].name}, s.found[mark.key := Kept(n, inode, mark.stamp)])
      else Without(s, n)
  }

  function VisitAll<K(==)>(marks: map<nat, Mark<K>>, s: Scan<K>, order: seq<Name>): Scan<K> {
    if order == [] then s else Visit(marks, VisitAll(marks, s, order[..|order| - 1]), order[|order| - 1])
  }

  // ---------------------------------------------------------------- which records stay

  /** The names before `n` in the enumeration. */
  function Before(order: seq<Name>, n: Name): seq<Name> {
    if order == [] || order[0] == n then [] else [order[0]] + Before(order[1..], n)
  }

  /** All other names of the file come earlier. */
  predicate ComesLast(names: map<Name, nat>, order: seq<Name>, n: Name)
    requires n in names
  {
    forall m :: m in names && m != n && names[m] == names[n] ==> m in Before(order, n)
  }

  /** A readable record whose file has no other name left when its turn comes: all other
      names of the file come earlier. */
  predicate Admissible<K>(names: map<Name, nat>, marks: map<nat, Mark<K>>, order: seq<Name>, n: Name) {
    && n in names && n.Rec? && names[n] in marks
    && forall m :: m in names && m != n && names[m] == names[n] ==> m in Before(order, n)
  }

  /** Records do not share files, and no two readable records have the same number. */
  ghost predicate Unshared<K>(names: map<Name, nat>, marks: map<nat, Mark<K>>) {
    && (forall m, n :: m in names && n in names && m.Rec? && n.Rec? && m != n ==> names[m] != names[n])
    && forall m, n :: m in names && n in names && m.Rec? && n.Rec? && m != n && names[m] in marks
                      && names[n] in marks ==>
         marks[names[m]].stamp != marks[names[n]].stamp
  }

  ghost predicate IsFound<K(!new)>(s: Scan<K>, n: Name) {
    exists k :: k in s.found && s.found[k].name == n
  }

  ghost predicate FoundAt<K>(names: map<Name, nat>, marks: map<nat, Mark<K>>, order: seq<Name>, s: Scan<K>, k: K)
    requires k in s.found
  {
    var kept := s.found[k];
    && kept.name in s.names && Admissible(names, marks, order, kept.name)
    && kept.inode == names[kept.name] && marks[kept.inode] == Mark(k, kept.stamp)
  }

  ghost predicate Newest<K>(names: map<Name, nat>, marks: map<nat, Mark<K>>, s: Scan<K>, n: Name)
    requires n in names && names[n] in marks
  {
    var mark := marks[names[n]];
    mark.key in s.found && mark.stamp <= s.found[mark.key].stamp
  }

  /** What holds when the first `visited` of the names have been visited. */
  ghost predicate Scanned<K(!new)>(names: map<Name, nat>, marks: map<nat, Mark<K>>, order: seq<Name>,
                                   visited: seq<Name>, s: Scan<K>) {
    && Sub(s.names, names)
    && (forall n :: n in names && n !in visited ==> n in s.names)
    && (forall n :: n in s.names && n in visited ==> IsFound(s, n))
    && (forall k :: k in s.found ==> FoundAt(names, marks, order, s, k) && s.found[k].name in visited)
    && forall n :: n in visited && Admissible(names, marks, order, n) ==> Newest(names, marks, s, n)
  }

  lemma {:induction false} BeforeIs(order: seq<Name>, p: nat)
    requires NoRepeats(order) && p < |order|
    ensures Before(order, order[p]) == order[..p]
  {
    if p > 0 {
      BeforeIs(order[1..], p - 1);
      assert order[1..][p - 1] == order[p];
      assert order[..p] == [order[0]] + order[1..][..p - 1];
    }
  }

  /** Of the visited names only records are left. */
  lemma LeftAreRecords<K(!new)>(names: map<Name, nat>, marks: map<nat, Mark<K>>, order: seq<Name>, visited: seq<Name>,
                                s: Scan<K>, m: Name)
    requires Scanned(names, marks, order, visited, s) && m in visited && m in s.names
    ensures m.Rec?
  {
    var k :| k in s.found && s.found[k].name == m;
    assert FoundAt(names, marks, order, s, k);
  }

  /** When its turn comes, a readable record is alone exactly if it is admissible. */
  lemma AloneInTime<K(!new)>(names: map<Name, nat>, marks: map<nat, Mark<K>>, order: seq<Name>, visited: seq<Name>,
                             s: Scan<K>, n: Name)
    requires Unshared(names, marks) && Scanned(names, marks, order, visited, s)
    requires n in names && n !in visited && Before(order, n) == visited
    ensures Passes(marks, s, n) <==> Admissible(names, marks, order, n)
  {
    if n.Rec? && names[n] in marks {
      forall m | m in names && m != n && names[m] == names[n]
        ensures m in visited <==> m !in s.names
      {
        if m in s.names && m in visited {
          LeftAreRecords(names, marks, order, visited, s, m);
        }
      }
      if forall m :: m in names && m != n && names[m] == names[n] ==> m in visited {
        assert SoleName(s.names, n);
      } else {
        var m :| m in names && m != n && names[m] == names[n] && m !in visited;
        assert m in s.names && s.names[m] == s.names[n];
      }
    }
  }

  lemma DroppedName<K(!new)>(names: map<Name, nat>, marks: map<nat, Mark<K>>, order: seq<Name>, visited: seq<Name>,
                             s: Scan<K>, n: Name)
    requires Scanned(names, marks, order, visited, s) && n !in visited
    requires Admissible(names, marks, order, n) ==> Newest(names, marks, s, n)
    ensures Scanned(names, marks, order, visited + [n], Without(s, n))
  {
    var t := Without(s, n);
    forall k | k in t.found
      ensures FoundAt(names, marks, order, t, k)
    {
      assert FoundAt(names, marks, order, s, k);
    }
    forall m | m in t.names && m in visited + [n]
      ensures IsFound(t, m)
    {
      assert IsFound(s, m);
    }
    forall m | m in visited + [n] && Admissible(names, marks, order, m)
      ensures Newest(names, marks, t, m)
    {
      assert Newest(names, marks, s, m);
    }
  }

  /** A record enters for its key, and an older one goes. */
  function Enter<K>(s: Scan<K>, k: K, kept: Kept): Scan<K> {
    Scan(if k in s.found then s.names - {s.found[k].name} else s.names, s.found[k := kept])
  }

  /** A record enters as the newest of its key. */
  lemma KeptName<K(!new)>(names: map<Name, nat>, marks: map<nat, Mark<K>>, order: seq<Name>, visited: seq<Name>,
                          s: Scan<K>, n: Name)
    requires Scanned(names, marks, order, visited, s) && n !in visited && Admissible(names, marks, order, n)
    requires marks[names[n]].key in s.found ==> s.found[marks[names[n]].key].stamp < marks[names[n]].stamp
    ensures Scanned(names, marks, order, visited + [n],
                    Enter(s, marks[names[n]].key, Kept(n, names[n], marks[names[n]].stamp)))
  {
    hide Before, IsFound, FoundAt;
    var k := marks[names[n]].key;
    var t := Enter(s, k, Kept(n, names[n], marks[names[n]].stamp));
    forall j | j in t.found
      ensures FoundAt(names, marks, order, t, j) && t.found[j].name in visited + [n]
    {
      StillFoundAt(names, marks, order, visited, s, n, j);
    }
    forall m | m in t.names && m in visited + [n]
      ensures IsFound(t, m)
    {
      StillIsFound(names, marks, order, visited, s, n, m);
    }
    forall m | m in visited + [n] && Admissible(names, marks, order, m)
      ensures Newest(names, marks, t, m)
    {
      if m != n {
        assert Newest(names, marks, s, m);
      }
    }
  }

  lemma StillFoundAt<K(!new)>(names: map<Name, nat>, marks: map<nat, Mark<K>>, order: seq<Name>, visited: seq<Name>,
                              s: Scan<K>, n: Name, j: K)
    requires Scanned(names, marks, order, visited, s) && n !in visited && Admissible(names, marks, order, n)
    requires j in s.found || j == marks[names[n]].key
    ensures var t := Enter(s, marks[names[n]].key, Kept(n, names[n], marks[names[n]].stamp));
            FoundAt(names, marks, order, t, j) && t.found[j].name in visited + [n]
  {
    hide Before, IsFound, Newest;
    var k := marks[names[n]].key;
    assert k in s.found ==> FoundAt(names, marks, order, s, k) && s.found[k].name in visited;
    if j != k {
      OthersFound(names, marks, order, s, j, k);
    }
  }

  lemma StillIsFound<K(!new)>(names: map<Name, nat>, marks: map<nat, Mark<K>>, order: seq<Name>, visited: seq<Name>,
                              s: Scan<K>, n: Name, m: Name)
    requires Scanned(names, marks, order, visited, s) && n !in visited && Admissible(names, marks, order, n)
    requires m in visited + [n]
    requires m in Enter(s, marks[names[n]].key, Kept(n, names[n], marks[names[n]].stamp)).names
    ensures IsFound(Enter(s, marks[names[n]].key, Kept(n, names[n], marks[names[n]].stamp)), m)
  {
    hide Before, FoundAt, Newest;
    var k := marks[names[n]].key;
    var t := Enter(s, k, Kept(n, names[n], marks[names[n]].stamp));
    if m == n {
      assert t.found[k].name == n;
    } else {
      assert IsFound(s, m);
      var j :| j in s.found && s.found[j].name == m;
      assert t.found[j].name == m;
    }
  }

  lemma OthersFound<K(!new)>(names: map<Name, nat>, marks: map<nat, Mark<K>>, order: seq<Name>, s: Scan<K>, j: K, k: K)
    requires j in s.found && j != k && FoundAt(names, marks, order, s, j)
    requires k in s.found ==> FoundAt(names, marks, order, s, k)
    ensures k in s.found ==> s.found[j].name != s.found[k].name
  {
  }

  lemma VisitKeeps<K(!new)>(names: map<Name, nat>, marks: map<nat, Mark<K>>, order: seq<Name>, visited: seq<Name>,
                            s: Scan<K>, n: Name)
    requires Unshared(names, marks) && Scanned(names, marks, order, visited, s)
    requires n in names && n !in visited && Before(order, n) == visited
    ensures Scanned(names, marks, order, visited + [n], Visit(marks, s, n))
  {
    AloneInTime(names, marks, order, visited, s, n);
    assert s.names[n] == names[n];
    if !Passes(marks, s, n) {
      DroppedName(names, marks, order, visited, s, n);
    } else {
      var mark := marks[names[n]];
      if mark.key !in s.found || s.found[mark.key].stamp < mark.stamp {
        KeptName(names, marks, order, visited, s, n);
      } else {
        DroppedName(names, marks, order, visited, s, n);
      }
    }
  }

  lemma NothingScanned<K(!new)>(names: map<Name, nat>, marks: map<nat, Mark<K>>, order: seq<Name>)
    ensures Scanned(names, marks, order, [], Scan(names, map[]))
  {
  }

  /** After the pass: the names left are those of the records kept, and these are, for every
      key, the newest admissible record. */
  lemma {:induction false} ScanKeepsNewest<K(!new)>(names: map<Name, nat>, marks: map<nat, Mark<K>>, order: seq<Name>,
                                                    p: nat)
    requires Unshared(names, marks) && NoRepeats(order) && Elements(order) == names.Keys && p <= |order|
    ensures Scanned(names, marks, order, order[..p], VisitAll(marks, Scan(names, map[]), order[..p]))
  {
    hide Scanned, Visit, Unshared;
    if p == 0 {
      NothingScanned(names, marks, order);
    } else {
      ScanKeepsNewest(names, marks, order, p - 1);
      BeforeIs(order, p - 1);
      assert order[p - 1] in Elements(order);
      assert order[p - 1] !in order[..p - 1];
      assert order[..p] == order[..p - 1] + [order[p - 1]];
      assert order[..p][..p - 1] == order[..p - 1];
      VisitKeeps(names, marks, order, order[..p - 1], VisitAll(marks, Scan(names, map[]), order[..p - 1]),
                 order[p - 1]);
    }
  }

  /** Some record that passes is for this key and at least this new. */
  ghost predicate Shows<K>(names: map<Name, nat>, marks: map<nat, Mark<K>>, order: seq<Name>, k: K, stamp: nat) {
    exists n :: Admissible(names, marks, order, n) && marks[names[n]].key == k && stamp <= marks[names[n]].stamp
  }

  /** Which records a pass finds. */
  lemma FoundIffShown<K(!new)>(names: map<Name, nat>, marks: map<nat, Mark<K>>, order: seq<Name>, s: Scan<K>, k: K,
                               stamp: nat)
    requires Elements(order) == names.Keys && Scanned(names, marks, order, order, s)
    ensures Shows(names, marks, order, k, stamp) <==> k in s.found && stamp <= s.found[k].stamp
  {
    hide Before, IsFound;
    if Shows(names, marks, order, k, stamp) {
      var n :| Admissible(names, marks, order, n) && marks[names[n]].key == k && stamp <= marks[names[n]].stamp;
      assert n in Elements(order);
      assert Newest(names, marks, s, n);
    }
    if k in s.found && stamp <= s.found[k].stamp {
      assert FoundAt(names, marks, order, s, k);
      assert Admissible(names, marks, order, s.found[k].name);
    }
  }

  /** The order of the names leaves a pass no choice. */
  lemma ScanDetermined<K(!new)>(names: map<Name, nat>, marks: map<nat, Mark<K>>, order: seq<Name>, s: Scan<K>,
                                t: Scan<K>)
    requires Unshared(names, marks) && Elements(order) == names.Keys
    requires Scanned(names, marks, order, order, s) && Scanned(names, marks, order, order, t)
    ensures s == t
  {
    hide Scanned, Unshared, Elements;
    forall k
      ensures k in s.found ==> k in t.found && t.found[k] == s.found[k]
      ensures k in t.found ==> k in s.found && s.found[k] == t.found[k]
    {
      SameFound(names, marks, order, s, t, k);
      SameFound(names, marks, order, t, s, k);
    }
    assert s.found.Keys == t.found.Keys;
    assert s.found == t.found;
    SameNames(names, marks, order, s, t);
    SameNames(names, marks, order, t, s);
    assert s.names == t.names;
  }

  lemma SameFound<K(!new)>(names: map<Name, nat>, marks: map<nat, Mark<K>>, order: seq<Name>, s: Scan<K>, t: Scan<K>,
                           k: K)
    requires Unshared(names, marks) && Elements(order) == names.Keys
    requires Scanned(names, marks, order, order, s) && Scanned(names, marks, order, order, t)
    ensures k in s.found ==> k in t.found && t.found[k] == s.found[k]
  {
    hide Before, IsFound;
    if k in s.found {
      assert FoundAt(names, marks, order, s, k);
      assert s.found[k].name in Elements(order);
      assert Newest(names, marks, t, s.found[k].name);
      assert FoundAt(names, marks, order, t, k);
      assert t.found[k].name in Elements(order);
      assert Newest(names, marks, s, t.found[k].name);
    }
  }

  lemma SameNames<K(!new)>(names: map<Name, nat>, marks: map<nat, Mark<K>>, order: seq<Name>, s: Scan<K>, t: Scan<K>)
    requires Elements(order) == names.Keys && s.found == t.found
    requires Scanned(names, marks, order, order, s) && Scanned(names, marks, order, order, t)
    ensures Sub(s.names, t.names)
  {
    hide Before, Newest;
    forall n | n in s.names
      ensures n in t.names && t.names[n] == s.names[n]
    {
      assert n in Elements(order);
      var k :| k in s.found && s.found[k].name == n;
      assert FoundAt(names, marks, order, t, k);
    }
  }

  /** A temporary name met after the record of the same file costs the record: the pass
      removes both and keeps nothing. In the other order the record stays. */
  lemma TemporaryCostsRecord<K>(k: K)
    ensures var names, marks := map[Temp(0) := 5, Rec(1, 1) := 5], map[5 := Mark(k, 1)];
            && VisitAll(marks, Scan(names, map[]), [Rec(1, 1), Temp(0)]) == Scan(map[], map[])
            && k in VisitAll(marks, Scan(names, map[]), [Temp(0), Rec(1, 1)]).found
  {
    var names: map<Name, nat>, marks: map<nat, Mark<K>> := map[Temp(0) := 5, Rec(1, 1) := 5], map[5 := Mark(k, 1)];
    var start := Scan(names, map[]);
    assert [Rec(1, 1), Temp(0)][..1] == [Rec(1, 1)] && [Temp(0), Rec(1, 1)][..1] == [Temp(0)];
    assert [Rec(1, 1)][..0] == [] && [Temp(0)][..0] == [];
    assert Temp(0) in names;
    assert !SoleName(names, Rec(1, 1));
    var once := Without(start, Rec(1, 1));
    assert VisitAll(marks, start, [Rec(1, 1)]) == once;
    assert VisitAll(marks, start, [Rec(1, 1), Temp(0)]) == Visit(marks, once, Temp(0));
    assert names - {Rec(1, 1)} - {Temp(0)} == map[];
    var other := Without(start, Temp(0));
    assert VisitAll(marks, start, [Temp(0)]) == other;
    assert SoleName(other.names, Rec(1, 1));
  }

  /** Records kept for different keys have nothing in common. */
  lemma FoundApart<K(!new)>(names: map<Name, nat>, marks: map<nat, Mark<K>>, order: seq<Name>, s: Scan<K>, a: K, b: K)
    requires Unshared(names, marks) && a in s.found && b in s.found && a != b
    requires FoundAt(names, marks, order, s, a) && FoundAt(names, marks, order, s, b)
    ensures s.found[a].name != s.found[b].name && s.found[a].inode != s.found[b].inode
            && s.found[a].stamp != s.found[b].stamp
  {
  }
}
