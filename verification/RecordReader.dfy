/** `Decoder` and `decode_record`: the record is pulled from the input field by field. */
module RecordReader {
  import opened Prelude
  import opened Http
  import opened Keys
  import opened Policy
  import opened Entries
  import opened Codec
  import opened Records

  /** The result and what remains are those of the reading function. */
  ghost predicate Follows<T>(p: Parse<T>, r: Option<T>, remaining: Bytes) {
    if p.Got? then r == Some(p.value) && remaining == p.rest else r == None
  }

  class Decoder {
    var remaining: Bytes

    constructor (input: Bytes)
      ensures remaining == input
    {
      remaining := input;
    }

    method TakeBytes(length: nat) returns (r: Option<Bytes>)
      modifies this
      ensures Follows(Take(old(remaining), length), r, remaining)
    {
      if |remaining| < length {
        return None;
      }
      r := Some(remaining[..length]);
      remaining := remaining[length..];
    }

    method PullInt(width: nat) returns (r: Option<nat>)
      modifies this
      ensures Follows(ReadInt(old(remaining), width), r, remaining)
    {
      var digits := TakeBytes(width);
      r := if digits.Some? then Some(FromLe(digits.value)) else None;
    }

    method PullBool() returns (r: Option<bool>)
      modifies this
      ensures Follows(ReadBool(old(remaining)), r, remaining)
    {
      var byte := TakeBytes(1);
      if byte.None? || byte.value[0] > 1 {
        return None;
      }
      r := Some(byte.value[0] == 1);
    }

    method PullDuration() returns (r: Option<Duration>)
      modifies this
      ensures Follows(ReadDuration(old(remaining)), r, remaining)
    {
      var seconds := PullInt(8);
      if seconds.None? {
        return None;
      }
      var nanos := PullInt(4);
      if nanos.None? || nanos.value >= NANOS || seconds.value > U64_MAX {
        return None;
      }
      r := Some(seconds.value * NANOS + nanos.value);
    }

    method PullOptDuration() returns (r: Option<Option<Duration>>)
      modifies this
      ensures Follows(ReadOptDuration(old(remaining)), r, remaining)
    {
      var present := PullBool();
      if present.None? {
        return None;
      }
      if !present.value {
        return Some(None);
      }
      var d := PullDuration();
      r := if d.Some? then Some(d) else None;
    }

    method PullCount(maximum: nat) returns (r: Option<nat>)
      modifies this
      ensures Follows(ReadCount(old(remaining), maximum), r, remaining)
    {
      var n := PullInt(4);
      r := if n.None? || n.value > maximum then None else n;
    }

    method PullBytes(maximum: nat) returns (r: Option<Bytes>)
      modifies this
      ensures Follows(ReadBytes(old(remaining), maximum), r, remaining)
    {
      var length := PullInt(4);
      if length.None? || length.value > maximum {
        return None;
      }
      r := TakeBytes(length.value);
    }

    method PullLongBytes(maximum: nat) returns (r: Option<Bytes>)
      modifies this
      ensures Follows(ReadLongBytes(old(remaining), maximum), r, remaining)
    {
      var length := PullInt(8);
      if length.None? || length.value > maximum {
        return None;
      }
      r := TakeBytes(length.value);
    }

    method PullOptBytes(maximum: nat) returns (r: Option<Option<Bytes>>)
      modifies this
      ensures Follows(ReadOptBytes(old(remaining), maximum), r, remaining)
    {
      var present := PullBool();
      if present.None? {
        return None;
      }
      if !present.value {
        return Some(None);
      }
      var b := PullBytes(maximum);
      r := if b.Some? then Some(b) else None;
    }

    // -------------------------------------------------------------- parts of a record

    method PullBase(c: Config) returns (r: Option<BaseKey>)
      modifies this
      ensures Follows(ReadBase(c, old(remaining)), r, remaining)
    {
      hide ReadBytes, ReadOptBytes, Rebuilds;
      var verb := PullBytes(c.maxKeyBytes);
      if verb.None? {
        return None;
      }
      var scheme := PullBytes(c.maxKeyBytes);
      if scheme.None? {
        return None;
      }
      var authority := PullBytes(c.maxKeyBytes);
      if authority.None? {
        return None;
      }
      var path := PullBytes(c.maxKeyBytes);
      if path.None? {
        return None;
      }
      var query := PullOptBytes(c.maxKeyBytes);
      if query.None? {
        return None;
      }
      var b := BaseKey(verb.value, scheme.value, authority.value, path.value, query.value);
      r := if Rebuilds(c, b) then Some(b) else None;
    }

    method PullVaryValue(c: Config) returns (r: Option<VaryValue>)
      modifies this
      ensures Follows(ReadVaryValue(c, old(remaining)), r, remaining)
    {
      hide ReadBytes, ReadBool, ParseName;
      var raw := PullBytes(c.maxHeaderBytes);
      if raw.None? || ParseName(raw.value).None? {
        return None;
      }
      var present := PullBool();
      if present.None? {
        return None;
      }
      var value := PullBytes(c.maxKeyBytes);
      if value.None? {
        return None;
      }
      r := Some(VaryValue(ParseName(raw.value).value, present.value, value.value));
    }

    method PullKey(c: Config) returns (r: Option<CacheKey>)
      modifies this
      ensures Follows(ReadKey(c, old(remaining)), r, remaining)
    {
      hide ReadBase, ReadVaryValue, ReadCount, AdjacentSorted, KeyLen, ReadMany, JoinMany;
      var base := PullBase(c);
      if base.None? {
        return None;
      }
      var count := PullCount(c.maxVaryFields);
      if count.None? {
        return None;
      }
      var vary: seq<VaryValue> := [];
      ghost var whole := ReadMany(VaryReader(c), remaining, count.value);
      JoinNone(whole);
      for i := 0 to count.value
        invariant whole == JoinMany(vary, ReadMany(VaryReader(c), remaining, count.value - i))
      {
        ghost var before := remaining;
        var v := PullVaryValue(c);
        JoinNext(VaryReader(c), before, count.value - i, vary);
        if v.None? {
          return None;
        }
        vary := vary + [v.value];
      }
      JoinDone(VaryReader(c), remaining, vary);
      var key := CacheKey(base.value, vary);
      r := if AdjacentSorted(vary) && KeyLen(key) <= c.maxKeyBytes then Some(key) else None;
    }

    method PullHeader(c: Config) returns (r: Option<Header>)
      modifies this
      ensures Follows(ReadHeader(c, old(remaining)), r, remaining)
    {
      hide ReadBytes, ParseName, IsFieldValue;
      var raw := PullBytes(c.maxHeaderBytes);
      if raw.None? {
        return None;
      }
      var value := PullBytes(c.maxHeaderBytes);
      if value.None? || ParseName(raw.value).None? || !IsFieldValue(value.value) {
        return None;
      }
      r := Some(Header(ParseName(raw.value).value, value.value));
    }

    /** The running total is checked after every header. */
    method PullHeaders(c: Config) returns (r: Option<Headers>)
      modifies this
      ensures Follows(ReadHeaders(c, old(remaining)), r, remaining)
    {
      hide ReadHeader, ReadCount, ReadMany, HeaderBytes, JoinMany;
      var count := PullCount(c.maxHeaderFields);
      if count.None? {
        return None;
      }
      var headers: Headers, total: nat := [], 0;
      NoHeaders();
      ghost var whole := ReadMany(HeaderReader(c), remaining, count.value);
      JoinNone(whole);
      for i := 0 to count.value
        invariant whole == JoinMany(headers, ReadMany(HeaderReader(c), remaining, count.value - i))
        invariant total == HeaderBytes(headers) <= c.maxHeaderBytes
      {
        ghost var before := remaining;
        var h := PullHeader(c);
        JoinNext(HeaderReader(c), before, count.value - i, headers);
        if h.None? {
          return None;
        }
        OneMoreHeader(headers, h.value);
        headers := headers + [h.value];
        total := total + |h.value.name| + |h.value.value|;
        if total > c.maxHeaderBytes {
          TotalOnlyGrows(headers, ReadMany(HeaderReader(c), remaining, count.value - i - 1));
          return None;
        }
      }
      JoinDone(HeaderReader(c), remaining, headers);
      r := Some(headers);
    }

    /** Every tag is checked, and must be new, as it is read. */
    method PullTags(c: Config) returns (r: Option<seq<Bytes>>)
      modifies this
      ensures Follows(ReadTags(c, old(remaining)), r, remaining)
    {
      hide ReadBytes, ReadCount, ValidTag;
      var count := PullCount(c.maxTagsPerEntry);
      if count.None? {
        return None;
      }
      var tags: seq<Bytes> := [];
      ghost var whole := ReadMany(TagReader(c), remaining, count.value);
      JoinNone(whole);
      for i := 0 to count.value
        invariant whole == JoinMany(tags, ReadMany(TagReader(c), remaining, count.value - i))
        invariant ProperTags(c, tags)
      {
        ghost var before := remaining;
        var tag := PullBytes(c.maxTagBytes);
        JoinNext(TagReader(c), before, count.value - i, tags);
        if tag.None? {
          return None;
        }
        if !ValidTag(tag.value, c.maxTagBytes) || tag.value in tags {
          BadTagStays(c, tags, tag.value, ReadMany(TagReader(c), remaining, count.value - i - 1));
          return None;
        }
        tags := tags + [tag.value];
      }
      JoinDone(TagReader(c), remaining, tags);
      r := Some(tags);
    }

    method PullRetention(version: nat) returns (r: Option<Retention>)
      modifies this
      ensures Follows(ReadRetention(old(remaining), version), r, remaining)
    {
      hide ReadOptDuration, ReadBool;
      if version < 2 {
        return Some(Rfc);
      }
      var keep := PullOptDuration();
      if keep.None? {
        return None;
      }
      var staleAllowed := PullBool();
      if staleAllowed.None? {
        return None;
      }
      if keep.value.None? && staleAllowed.value {
        r := Some(Rfc);
      } else if keep.value.Some? && !staleAllowed.value {
        r := Some(Canonical(keep.value.value));
      } else {
        r := None;
      }
    }

    method PullPolicy(version: nat, age: Duration) returns (r: Option<ResponsePolicy>)
      modifies this
      ensures Follows(ReadPolicy(old(remaining), version, age), r, remaining)
    {
      hide ReadDuration, ReadRetention, ReadBool;
      var lifetime := PullDuration();
      if lifetime.None? {
        return None;
      }
      var whileRevalidate := PullDuration();
      if whileRevalidate.None? {
        return None;
      }
      var onError := PullDuration();
      if onError.None? {
        return None;
      }
      var retention := PullRetention(version);
      if retention.None? {
        return None;
      }
      var always := PullBool();
      if always.None? {
        return None;
      }
      var must := PullBool();
      if must.None? {
        return None;
      }
      var authorized := PullBool();
      if authorized.None? {
        return None;
      }
      r := Some(ResponsePolicy(lifetime.value, age, whileRevalidate.value, onError.value, retention.value, always.value,
                               must.value, authorized.value));
    }

    method PullValidators(c: Config) returns (r: Option<Validators>)
      modifies this
      ensures Follows(ReadValidators(c, old(remaining)), r, remaining)
    {
      hide ReadOptBytes, ProperValidator;
      var etag := PullOptBytes(c.maxHeaderBytes);
      if etag.None? {
        return None;
      }
      var lastModified := PullOptBytes(c.maxHeaderBytes);
      if lastModified.None? || !ProperValidator(etag.value) || !ProperValidator(lastModified.value) {
        return None;
      }
      r := Some(Validators(etag.value, lastModified.value));
    }

    method PullStamp() returns (r: Option<Stamp>)
      modifies this
      ensures Follows(ReadStamp(old(remaining)), r, remaining)
    {
      hide ReadInt, ReadDuration;
      var sequence := PullInt(8);
      if sequence.None? {
        return None;
      }
      var access := PullInt(8);
      if access.None? {
        return None;
      }
      var age := PullDuration();
      if age.None? {
        return None;
      }
      var wall := PullDuration();
      if wall.None? || wall.value > WALL_MAX {
        return None;
      }
      r := Some(Stamp(sequence.value, access.value, age.value, wall.value));
    }

    /** The payload of a record. */
    method PullImage(c: Config, version: nat) returns (r: Option<Image>)
      modifies this
      ensures Follows(ReadImage(c, old(remaining), version), r, remaining)
    {
      hide ReadStamp, ReadKey, ReadInt, ReadHeaders, ReadLongBytes, ReadTags, ReadPolicy, ReadValidators, Charge;
      var stamp := PullStamp();
      if stamp.None? {
        return None;
      }
      var key := PullKey(c);
      if key.None? {
        return None;
      }
      var status := PullInt(2);
      if status.None? || status.value < 100 || status.value > 999 {
        return None;
      }
      var headers := PullHeaders(c);
      if headers.None? {
        return None;
      }
      var body := PullLongBytes(c.maxBodyBytes);
      if body.None? {
        return None;
      }
      var tags := PullTags(c);
      if tags.None? {
        return None;
      }
      var policy := PullPolicy(version, stamp.value.age);
      if policy.None? {
        return None;
      }
      var validators := PullValidators(c);
      if validators.None? {
        return None;
      }
      var stored := PullInt(8);
      if stored.None? {
        return None;
      }
      var charge := Charge(key.value, headers.value, |body.value|, tags.value);
      if stored.value != charge || charge > c.maxObjectBytes || charge > c.maxTotalBytes {
        return None;
      }
      r := Some(Image(stamp.value.sequence, stamp.value.access, stamp.value.wall, key.value, status.value,
                      headers.value, body.value,
                      tags.value, policy.value, validators.value, stored.value));
    }
  }

  // ---------------------------------------------------------------- lists

  ghost function JoinMany<T>(done: seq<T>, p: Parse<seq<T>>): Parse<seq<T>> {
    if p.Got? then Got(done + p.value, p.rest) else Fail
  }

  lemma JoinNone<T>(p: Parse<seq<T>>)
    ensures JoinMany([], p) == p
  {
    assert p.Got? ==> [] + p.value == p.value;
  }

  lemma JoinNext<T>(read: Bytes -> Parse<T>, s: Bytes, n: nat, done: seq<T>)
    requires n > 0
    ensures read(s).Got? ==>
              JoinMany(done, ReadMany(read, s, n)) == JoinMany(done + [read(s).value],
                                                               ReadMany(read, read(s).rest, n - 1))
    ensures read(s).Fail? ==> JoinMany(done, ReadMany(read, s, n)) == Fail
  {
    if read(s).Got? {
      var p := ReadMany(read, read(s).rest, n - 1);
      assert p.Got? ==> done + ([read(s).value] + p.value) == done + [read(s).value] + p.value;
    }
  }

  lemma JoinDone<T>(read: Bytes -> Parse<T>, s: Bytes, done: seq<T>)
    ensures JoinMany(done, ReadMany(read, s, 0)) == Got(done, s)
  {
    assert done + [] == done;
  }

  lemma NoHeaders()
    ensures HeaderBytes([]) == 0
  {
  }

  lemma OneMoreHeader(headers: Headers, h: Header)
    ensures HeaderBytes(headers + [h]) == HeaderBytes(headers) + |h.name| + |h.value|
  {
    assert (headers + [h])[..|headers|] == headers;
  }

  lemma {:induction false} HeaderBytesPrefix(xs: Headers, ys: Headers)
    ensures HeaderBytes(xs) <= HeaderBytes(xs + ys)
  {
    if ys == [] {
      assert xs + ys == xs;
    } else {
      assert (xs + ys)[..|xs + ys| - 1] == xs + ys[..|ys| - 1];
      HeaderBytesPrefix(xs, ys[..|ys| - 1]);
    }
  }

  /** A total that is too large stays too large, whatever follows. */
  lemma TotalOnlyGrows(headers: Headers, rest: Parse<Headers>)
    ensures var whole := JoinMany(headers, rest); whole.Got? ==> HeaderBytes(headers) <= HeaderBytes(whole.value)
  {
    if rest.Got? {
      HeaderBytesPrefix(headers, rest.value);
    }
  }

  /** A bad tag spoils the whole list. */
  lemma BadTagStays(c: Config, tags: seq<Bytes>, tag: Bytes, rest: Parse<seq<Bytes>>)
    requires !ValidTag(tag, c.maxTagBytes) || tag in tags
    ensures var whole := JoinMany(tags + [tag], rest); whole.Got? ==> !ProperTags(c, whole.value)
  {
    if rest.Got? {
      var all := tags + [tag] + rest.value;
      assert all[|tags|] == tag;
      if tag in tags {
        var i :| 0 <= i < |tags| && tags[i] == tag;
        assert all[i] == tag;
      }
    }
  }

  /** `decode_record`, up to the ages. */
  method DecodeRecord(c: Config, crc: Bytes -> U32, record: Bytes) returns (r: Option<Image>)
    ensures r == Decode(c, crc, record)
  {
    hide ReadImage;
    if |record| < HEADER_BYTES || record[..8] != MAGIC {
      return None;
    }
    var version := FromLe(record[8..10]);
    var length := FromLe(record[10..18]);
    var checksum := FromLe(record[18..22]);
    if (version != 1 && version != VERSION) || length != |record| - HEADER_BYTES
    || crc(record[HEADER_BYTES..]) != checksum {
      return None;
    }
    var input := new Decoder(record[HEADER_BYTES..]);
    var image := input.PullImage(c, version);
    if image.None? || input.remaining != [] {
      return None;
    }
    r := image;
  }
}
