/** Field encodings of the record format (`disk/codec.rs`): little-endian integers, length
    prefixes, strict booleans and durations. A reader returns the value and what is left. */
module Codec {
  import opened Prelude
  import opened Policy

  type U32 = n: int | 0 <= n <= U32_MAX

  /** A successful read: the value and the remaining input. */
  datatype Parse<+T> = Fail | Got(value: T, rest: Bytes) {
    predicate IsFailure() { Fail? }
    function PropagateFailure<U>(): Parse<U>
      requires Fail?
    {
      Fail
    }
    function Extract(): (T, Bytes)
      requires Got?
    {
      (value, rest)
    }
  }

  // ---------------------------------------------------------------- integers

  function Pow256(width: nat): (p: nat)
    ensures p > 0
  {
    if width == 0 then 1 else 256 * Pow256(width - 1)
  }

  function Le(n: nat, width: nat): (r: Bytes)
    ensures |r| == width
  {
    if width == 0 then [] else [n % 256] + Le(n / 256, width - 1)
  }

  function FromLe(s: Bytes): nat {
    if s == [] then 0 else s[0] + 256 * FromLe(s[1..])
  }

  /** The least significant byte comes first. */
  lemma {:induction false} LeDigit(n: nat, width: nat, i: nat)
    requires i < width
    ensures Le(n, width)[i] == n / Pow256(i) % 256
    decreases i
  {
    if i > 0 {
      LeDigit(n / 256, width - 1, i - 1);
      DivideTwice(n, Pow256(i - 1));
    }
  }

  lemma DivideTwice(n: nat, p: nat)
    requires p > 0
    ensures n / 256 / p == n / (256 * p)
  {
    var a, b := n / 256, n % 256;
    var q, r := a / p, a % p;
    assert a == p * q + r;
    assert n == 256 * (p * q + r) + b;
    Product(p, q);
    assert n == (256 * p) * q + (256 * r + b);
    QuotientIs(n, 256 * p, q, 256 * r + b);
  }

  lemma Product(p: nat, q: nat)
    ensures 256 * (p * q) == (256 * p) * q
  {
  }

  lemma QuotientIs(n: nat, d: nat, q: nat, r: nat)
    requires r < d && n == d * q + r
    ensures n / d == q
  {
    var p, s := n / d, n % d;
    assert n == d * p + s && s < d;
    if p < q {
      Larger(d, p, q);
    } else if q < p {
      Larger(d, q, p);
    }
  }

  lemma Larger(d: nat, p: nat, q: nat)
    requires p < q
    ensures d * p + d <= d * q
  {
    var more := q - p - 1;
    assert d * q == d * p + d + d * more;
  }

  lemma {:induction false} LeRoundTrip(n: nat, width: nat)
    requires n < Pow256(width)
    ensures FromLe(Le(n, width)) == n
  {
    if width > 0 {
      LeRoundTrip(n / 256, width - 1);
      assert Le(n, width)[1..] == Le(n / 256, width - 1);
    }
  }

  lemma Widths()
    ensures Pow256(2) == U16_MAX + 1 && Pow256(4) == U32_MAX + 1 && Pow256(8) == U64_MAX + 1
  {
    assert Pow256(1) == 256 && Pow256(2) == 0x1_0000 && Pow256(3) == 0x100_0000 && Pow256(4) == 0x1_0000_0000;
    assert Pow256(5) == 0x100_0000_0000 && Pow256(6) == 0x1_0000_0000_0000 && Pow256(7) == 0x100_0000_0000_0000;
  }

  /** `Decoder::take`. */
  function Take(s: Bytes, length: nat): Parse<Bytes> {
    if |s| < length then Fail else Got(s[..length], s[length..])
  }

  lemma TakeAppended(s: Bytes, rest: Bytes)
    ensures Take(s + rest, |s|) == Got(s, rest)
  {
    assert (s + rest)[..|s|] == s && (s + rest)[|s|..] == rest;
  }

  function ReadInt(s: Bytes, width: nat): Parse<nat> {
    match Take(s, width)
    case Fail => Fail
    case Got(digits, rest) => Got(FromLe(digits), rest)
  }

  lemma ReadIntBack(n: nat, width: nat, rest: Bytes)
    requires n < Pow256(width)
    ensures ReadInt(Le(n, width) + rest, width) == Got(n, rest)
  {
    TakeAppended(Le(n, width), rest);
    LeRoundTrip(n, width);
  }

  lemma ReadU16Back(n: nat, rest: Bytes)
    requires n <= U16_MAX
    ensures ReadInt(Le(n, 2) + rest, 2) == Got(n, rest)
  {
    Widths();
    ReadIntBack(n, 2, rest);
  }

  lemma ReadU32Back(n: nat, rest: Bytes)
    requires n <= U32_MAX
    ensures ReadInt(Le(n, 4) + rest, 4) == Got(n, rest)
  {
    Widths();
    ReadIntBack(n, 4, rest);
  }

  lemma ReadU64Back(n: nat, rest: Bytes)
    requires n <= U64_MAX
    ensures ReadInt(Le(n, 8) + rest, 8) == Got(n, rest)
  {
    Widths();
    ReadIntBack(n, 8, rest);
  }

  // ---------------------------------------------------------------- booleans and durations

  function PutBool(b: bool): Bytes {
    [if b then 1 else 0]
  }

  function ReadBool(s: Bytes): Parse<bool> {
    if s == [] || s[0] > 1 then Fail else Got(s[0] == 1, s[1..])
  }

  lemma ReadBoolBack(b: bool, rest: Bytes)
    ensures ReadBool(PutBool(b) + rest) == Got(b, rest)
  {
    assert (PutBool(b) + rest)[1..] == rest;
  }

  function PutDuration(d: Duration): Bytes {
    Le(d / NANOS, 8) + Le(d % NANOS, 4)
  }

  function ReadDuration(s: Bytes): Parse<Duration> {
    var (seconds, s1) :- ReadInt(s, 8);
    var (nanos, s2) :- ReadInt(s1, 4);
    if nanos >= NANOS || seconds > U64_MAX then Fail else Got(seconds * NANOS + nanos, s2)
  }

  lemma ReadDurationBack(d: Duration, rest: Bytes)
    ensures ReadDuration(PutDuration(d) + rest) == Got(d, rest)
  {
    var seconds, nanos := d / NANOS, d % NANOS;
    assert seconds <= U64_MAX && nanos <= U32_MAX;
    assert PutDuration(d) + rest == Le(seconds, 8) + (Le(nanos, 4) + rest);
    ReadU64Back(seconds, Le(nanos, 4) + rest);
    ReadU32Back(nanos, rest);
  }

  function PutOptDuration(d: Option<Duration>): Bytes {
    PutBool(d.Some?) + (if d.Some? then PutDuration(d.value) else [])
  }

  function ReadOptDuration(s: Bytes): Parse<Option<Duration>> {
    var (present, s1) :- ReadBool(s);
    if !present then Got(None, s1)
    else
      var (d, s2) :- ReadDuration(s1);
      Got(Some(d), s2)
  }

  lemma ReadOptDurationBack(d: Option<Duration>, rest: Bytes)
    ensures ReadOptDuration(PutOptDuration(d) + rest) == Got(d, rest)
  {
    var tail := (if d.Some? then PutDuration(d.value) else []) + rest;
    assert PutOptDuration(d) + rest == PutBool(d.Some?) + tail;
    ReadBoolBack(d.Some?, tail);
    if d.Some? {
      ReadDurationBack(d.value, rest);
    }
  }

  // ---------------------------------------------------------------- byte strings

  function PutBytes(b: Bytes): Bytes {
    Le(|b|, 4) + b
  }

  function ReadBytes(s: Bytes, maximum: nat): Parse<Bytes> {
    var (length, s1) :- ReadInt(s, 4);
    if length > maximum then Fail else Take(s1, length)
  }

  lemma ReadBytesBack(b: Bytes, maximum: nat, rest: Bytes)
    requires |b| <= maximum && |b| <= U32_MAX
    ensures ReadBytes(PutBytes(b) + rest, maximum) == Got(b, rest)
  {
    assert PutBytes(b) + rest == Le(|b|, 4) + (b + rest);
    ReadU32Back(|b|, b + rest);
    TakeAppended(b, rest);
  }

  function PutLongBytes(b: Bytes): Bytes {
    Le(|b|, 8) + b
  }

  function ReadLongBytes(s: Bytes, maximum: nat): Parse<Bytes> {
    var (length, s1) :- ReadInt(s, 8);
    if length > maximum then Fail else Take(s1, length)
  }

  lemma ReadLongBytesBack(b: Bytes, maximum: nat, rest: Bytes)
    requires |b| <= maximum && |b| <= U64_MAX
    ensures ReadLongBytes(PutLongBytes(b) + rest, maximum) == Got(b, rest)
  {
    assert PutLongBytes(b) + rest == Le(|b|, 8) + (b + rest);
    ReadU64Back(|b|, b + rest);
    TakeAppended(b, rest);
  }

  function PutOptBytes(b: Option<Bytes>): Bytes {
    PutBool(b.Some?) + (if b.Some? then PutBytes(b.value) else [])
  }

  function ReadOptBytes(s: Bytes, maximum: nat): Parse<Option<Bytes>> {
    var (present, s1) :- ReadBool(s);
    if !present then Got(None, s1)
    else
      var (b, s2) :- ReadBytes(s1, maximum);
      Got(Some(b), s2)
  }

  lemma ReadOptBytesBack(b: Option<Bytes>, maximum: nat, rest: Bytes)
    requires b.Some? ==> |b.value| <= maximum && |b.value| <= U32_MAX
    ensures ReadOptBytes(PutOptBytes(b) + rest, maximum) == Got(b, rest)
  {
    var tail := (if b.Some? then PutBytes(b.value) else []) + rest;
    assert PutOptBytes(b) + rest == PutBool(b.Some?) + tail;
    ReadBoolBack(b.Some?, tail);
    if b.Some? {
      ReadBytesBack(b.value, maximum, rest);
    }
  }

  /** `Decoder::count`. */
  function ReadCount(s: Bytes, maximum: nat): Parse<nat> {
    var (n, s1) :- ReadInt(s, 4);
    if n > maximum then Fail else Got(n, s1)
  }

  // ---------------------------------------------------------------- lists

  function PutMany<T>(put: T -> Bytes, xs: seq<T>): Bytes {
    if xs == [] then [] else put(xs[0]) + PutMany(put, xs[1..])
  }

  lemma {:induction false} PutManyAppend<T>(put: T -> Bytes, xs: seq<T>, x: T)
    ensures PutMany(put, xs + [x]) == PutMany(put, xs) + put(x)
  {
    if xs == [] {
      assert xs + [x] == [x] && [x][1..] == [];
    } else {
      assert (xs + [x])[1..] == xs[1..] + [x];
      PutManyAppend(put, xs[1..], x);
    }
  }

  function ReadMany<T>(read: Bytes -> Parse<T>, s: Bytes, n: nat): (r: Parse<seq<T>>)
    ensures r.Got? ==> |r.value| == n
    decreases n
  {
    if n == 0 then Got([], s)
    else
      var (x, s1) :- read(s);
      var (more, s2) :- ReadMany(read, s1, n - 1);
      Got([x] + more, s2)
  }

  /** Reading what was written gives the value back, whatever follows. */
  ghost predicate Inverts<T(!new)>(read: Bytes -> Parse<T>, put: T -> Bytes, x: T) {
    forall rest: Bytes :: read(put(x) + rest) == Got(x, rest)
  }

  lemma {:induction false} ReadManyBack<T(!new)>(read: Bytes -> Parse<T>, put: T -> Bytes, xs: seq<T>, rest: Bytes)
    requires forall i :: 0 <= i < |xs| ==> Inverts(read, put, xs[i])
    ensures ReadMany(read, PutMany(put, xs) + rest, |xs|) == Got(xs, rest)
  {
    if xs == [] {
      assert PutMany(put, xs) + rest == rest;
    } else {
      var s1 := PutMany(put, xs[1..]) + rest;
      assert PutMany(put, xs) + rest == put(xs[0]) + s1;
      assert Inverts(read, put, xs[0]);
      ReadManyBack(read, put, xs[1..], rest);
      assert xs == [xs[0]] + xs[1..];
    }
  }

  /** Every value a reader can return satisfies `ok`. */
  ghost predicate Yields<T(!new)>(read: Bytes -> Parse<T>, ok: T -> bool) {
    forall s: Bytes :: read(s).Got? ==> ok(read(s).value)
  }

  lemma {:induction false} ReadManyYields<T(!new)>(read: Bytes -> Parse<T>, ok: T -> bool, s: Bytes, n: nat)
    requires Yields(read, ok)
    ensures ReadMany(read, s, n).Got? ==> forall i :: 0 <= i < n ==> ok(ReadMany(read, s, n).value[i])
    decreases n
  {
    if n > 0 && ReadMany(read, s, n).Got? {
      ReadManyYields(read, ok, read(s).rest, n - 1);
    }
  }

  /** A count followed by that many items. */
  function PutList<T>(put: T -> Bytes, xs: seq<T>): Bytes {
    Le(|xs|, 4) + PutMany(put, xs)
  }

  function ReadList<T>(read: Bytes -> Parse<T>, s: Bytes, maximum: nat): (r: Parse<seq<T>>)
    ensures r.Got? ==> |r.value| <= maximum
  {
    var (n, s1) :- ReadCount(s, maximum);
    ReadMany(read, s1, n)
  }

  lemma ReadListBack<T(!new)>(read: Bytes -> Parse<T>, put: T -> Bytes, xs: seq<T>, maximum: nat, rest: Bytes)
    requires |xs| <= maximum && |xs| <= U32_MAX
    requires forall i :: 0 <= i < |xs| ==> Inverts(read, put, xs[i])
    ensures ReadList(read, PutList(put, xs) + rest, maximum) == Got(xs, rest)
  {
    assert PutList(put, xs) + rest == Le(|xs|, 4) + (PutMany(put, xs) + rest);
    ReadU32Back(|xs|, PutMany(put, xs) + rest);
    ReadManyBack(read, put, xs, rest);
  }

  lemma ReadListYields<T(!new)>(read: Bytes -> Parse<T>, ok: T -> bool, s: Bytes, maximum: nat)
    requires Yields(read, ok)
    ensures ReadList(read, s, maximum).Got? ==> forall x :: x in ReadList(read, s, maximum).value ==> ok(x)
  {
    if ReadList(read, s, maximum).Got? {
      var n := ReadCount(s, maximum);
      ReadManyYields(read, ok, n.rest, n.value);
    }
  }
}
