/** `Encoder` and `encode_record`: the record is pushed to a buffer field by field. */
module RecordWriter {
  import opened Prelude
  import opened Http
  import opened Keys
  import opened Policy
  import opened Entries
  import opened Codec
  import opened Records

  class Encoder {
    var data: Bytes

    constructor ()
      ensures data == []
    {
      data := [];
    }

    method PushInt(n: nat, width: nat)
      modifies this
      ensures data == old(data) + Le(n, width)
    {
      data := data + Le(n, width);
    }

    method PushBool(b: bool)
      modifies this
      ensures data == old(data) + PutBool(b)
    {
      data := data + [if b then 1 else 0];
    }

    method PushDuration(d: Duration)
      modifies this
      ensures data == old(data) + PutDuration(d)
    {
      PushInt(d / NANOS, 8);
      PushInt(d % NANOS, 4);
      assert old(data) + Le(d / NANOS, 8) + Le(d % NANOS, 4) == old(data) + PutDuration(d);
    }

    method PushOptDuration(d: Option<Duration>)
      modifies this
      ensures data == old(data) + PutOptDuration(d)
    {
      PushBool(d.Some?);
      if d.Some? {
        PushDuration(d.value);
      }
      Appended(old(data), PutBool(d.Some?), if d.Some? then PutDuration(d.value) else []);
    }

    /** `u32_len`, which fails for lengths that need more than 32 bits. */
    method PushLength(n: nat) returns (ok: bool)
      modifies this
      ensures ok <==> n <= U32_MAX
      ensures ok ==> data == old(data) + Le(n, 4)
    {
      if n > U32_MAX {
        return false;
      }
      PushInt(n, 4);
      ok := true;
    }

    method PushBytes(b: Bytes) returns (ok: bool)
      modifies this
      ensures ok <==> |b| <= U32_MAX
      ensures ok ==> data == old(data) + PutBytes(b)
    {
      ok := PushLength(|b|);
      if ok {
        data := data + b;
        Appended(old(data), Le(|b|, 4), b);
      }
    }

    method PushLongBytes(b: Bytes) returns (ok: bool)
      modifies this
      ensures ok <==> |b| <= U64_MAX
      ensures ok ==> data == old(data) + PutLongBytes(b)
    {
      if |b| > U64_MAX {
        return false;
      }
      PushInt(|b|, 8);
      data := data + b;
      Appended(old(data), Le(|b|, 8), b);
      ok := true;
    }

    method PushOptBytes(b: Option<Bytes>) returns (ok: bool)
      modifies this
      ensures ok <==> b.Some? ==> |b.value| <= U32_MAX
      ensures ok ==> data == old(data) + PutOptBytes(b)
    {
      PushBool(b.Some?);
      ok := true;
      if b.Some? {
        ok := PushBytes(b.value);
      }
      Appended(old(data), PutBool(b.Some?), if b.Some? then PutBytes(b.value) else []);
    }

    // -------------------------------------------------------------- parts of a record

    method PushKey(k: CacheKey) returns (ok: bool)
      modifies this
      ensures ok <==> KeyFits(k)
      ensures ok ==> data == old(data) + PutKey(k)
    {
      hide PutBase, ShortBase, PutList, PutVaryValue;
      ok := PushBase(k.base);
      if ok {
        ok := PushVary(k.vary);
        Appended(old(data), PutBase(k.base), PutList(PutVaryValue, k.vary));
      }
    }

    method PushVary(vary: seq<VaryValue>) returns (ok: bool)
      modifies this
      ensures ok <==> |vary| <= U32_MAX && forall i :: 0 <= i < |vary| ==> |vary[i].name| <= U32_MAX
                                                                           && |vary[i].value| <= U32_MAX
      ensures ok ==> data == old(data) + PutList(PutVaryValue, vary)
    {
      hide PutBytes, PutBool, PutMany, PutList, Le;
      ok := PushLength(|vary|);
      if !ok {
        return;
      }
      ghost var start := data;
      NoPuts(PutVaryValue, vary, start);
      for i := 0 to |vary|
        invariant data == start + PutMany(PutVaryValue, vary[..i])
        invariant forall j :: 0 <= j < i ==> |vary[j].name| <= U32_MAX && |vary[j].value| <= U32_MAX
      {
        ghost var before := data;
        ok := PushBytes(vary[i].name);
        if !ok {
          return;
        }
        PushBool(vary[i].present);
        ok := PushBytes(vary[i].value);
        if !ok {
          return;
        }
        Appended3(before, PutBytes(vary[i].name), PutBool(vary[i].present), PutBytes(vary[i].value));
        OneMorePut(PutVaryValue, vary, i, start);
      }
      WholeList(PutVaryValue, vary, old(data));
    }

    method PushBase(b: BaseKey) returns (ok: bool)
      modifies this
      ensures ok <==> ShortBase(b, U32_MAX)
      ensures ok ==> data == old(data) + PutBase(b)
    {
      hide PutBytes, PutOptBytes;
      ok := PushBytes(b.verb);
      if !ok {
        return;
      }
      ok := PushBytes(b.scheme);
      if !ok {
        return;
      }
      ok := PushBytes(b.authority);
      if !ok {
        return;
      }
      ok := PushBytes(b.path);
      if !ok {
        return;
      }
      ok := PushOptBytes(b.query);
      assert ok ==> data == old(data) + PutBytes(b.verb) + PutBytes(b.scheme) + PutBytes(b.authority) + PutBytes(b.path)
                    + PutOptBytes(b.query);
    }

    method PushHeaders(headers: Headers) returns (ok: bool)
      modifies this
      ensures ok <==> HeadersFit(headers)
      ensures ok ==> data == old(data) + PutList(PutHeader, headers)
    {
      hide PutBytes, PutMany;
      ok := PushLength(|headers|);
      if !ok {
        return;
      }
      ghost var start := data;
      NoPuts(PutHeader, headers, start);
      for i := 0 to |headers|
        invariant data == start + PutMany(PutHeader, headers[..i])
        invariant forall j :: 0 <= j < i ==> ShortHeader(headers[j], U32_MAX)
      {
        ghost var before := data;
        ok := PushBytes(headers[i].name);
        if !ok {
          return;
        }
        ok := PushBytes(headers[i].value);
        if !ok {
          return;
        }
        Appended(before, PutBytes(headers[i].name), PutBytes(headers[i].value));
        OneMorePut(PutHeader, headers, i, start);
      }
      WholeList(PutHeader, headers, old(data));
    }

    method PushTags(tags: seq<Bytes>) returns (ok: bool)
      modifies this
      ensures ok <==> TagsFit(tags)
      ensures ok ==> data == old(data) + PutList(PutBytes, tags)
    {
      ok := PushLength(|tags|);
      if !ok {
        return;
      }
      ghost var start := data;
      for i := 0 to |tags|
        invariant data == start + PutMany(PutBytes, tags[..i])
        invariant forall j :: 0 <= j < i ==> |tags[j]| <= U32_MAX
      {
        ok := PushBytes(tags[i]);
        if !ok {
          return;
        }
        OneMorePut(PutBytes, tags, i, start);
      }
      WholeList(PutBytes, tags, old(data));
    }

    method PushPolicy(p: ResponsePolicy)
      modifies this
      ensures data == old(data) + PutPolicy(p)
    {
      PushDuration(p.lifetime);
      PushDuration(p.staleWhileRevalidate);
      PushDuration(p.staleIfError);
      PushOptDuration(KeepOf(p.retention));
      PushBool(p.retention.Rfc?);
      PushBool(p.alwaysRevalidate);
      PushBool(p.mustRevalidateStale);
      PushBool(p.allowsAuthorizedReuse);
      PolicyParts(old(data), p);
    }
  }

  lemma Appended(s: Bytes, a: Bytes, b: Bytes)
    ensures s + a + b == s + (a + b)
  {
  }

  lemma Appended3(s: Bytes, a: Bytes, b: Bytes, c: Bytes)
    ensures s + a + b + c == s + (a + (b + c))
  {
  }

  lemma PolicyParts(s: Bytes, p: ResponsePolicy)
    ensures s + PutDuration(p.lifetime) + PutDuration(p.staleWhileRevalidate) + PutDuration(p.staleIfError)
            + PutOptDuration(KeepOf(p.retention)) + PutBool(p.retention.Rfc?) + PutBool(p.alwaysRevalidate)
            + PutBool(p.mustRevalidateStale) + PutBool(p.allowsAuthorizedReuse) == s + PutPolicy(p)
  {
    hide PutDuration, PutOptDuration, PutBool;
  }

  lemma OneMorePut<T>(put: T -> Bytes, xs: seq<T>, i: nat, start: Bytes)
    requires i < |xs|
    ensures start + PutMany(put, xs[..i]) + put(xs[i]) == start + PutMany(put, xs[..i + 1])
  {
    assert xs[..i + 1] == xs[..i] + [xs[i]];
    PutManyAppend(put, xs[..i], xs[i]);
  }

  lemma NoPuts<T>(put: T -> Bytes, xs: seq<T>, start: Bytes)
    ensures start == start + PutMany(put, xs[..0])
  {
  }

  lemma WholeList<T>(put: T -> Bytes, xs: seq<T>, start: Bytes)
    ensures start + Le(|xs|, 4) + PutMany(put, xs[..|xs|]) == start + PutList(put, xs)
  {
    hide Le, PutMany;
    assert xs[..|xs|] == xs;
  }

  /** `encode_record`: fails exactly if some part does not fit its length prefix. */
  method EncodeRecord(crc: Bytes -> U32, e: Entry, sequence: nat, access: nat, now: Duration, wall: WallTime)
    returns (r: Option<Bytes>)
    requires sequence <= U64_MAX && access <= U64_MAX && e.status <= U16_MAX && e.charge <= USIZE_MAX
    ensures r == Encode(crc, ToImage(e, sequence, access, now, wall))
  {
    hide PutImage, Encodable, Le;
    var payload := EncodePayload(e, sequence, access, now, wall);
    if payload.None? {
      return None;
    }
    var record := new Encoder();
    record.data := MAGIC;
    record.PushInt(VERSION, 2);
    record.PushInt(|payload.value|, 8);
    record.PushInt(crc(payload.value), 4);
    record.data := record.data + payload.value;
    r := Some(record.data);
    Appended5(MAGIC, Le(VERSION, 2), Le(|payload.value|, 8), Le(crc(payload.value), 4), payload.value);
  }

  lemma Appended5(a: Bytes, b: Bytes, c: Bytes, d: Bytes, e: Bytes)
    ensures a + b + c + d + e == a + (b + (c + (d + e)))
  {
  }

  method EncodePayload(e: Entry, sequence: nat, access: nat, now: Duration, wall: WallTime) returns (r: Option<Bytes>)
    requires sequence <= U64_MAX && access <= U64_MAX && e.status <= U16_MAX && e.charge <= USIZE_MAX
    ensures var i := ToImage(e, sequence, access, now, wall);
            r == if Encodable(i) then Some(PutImage(i)) else None
  {
    hide PutKey, PutList, PutLongBytes, PutPolicy, PutValidators, PutDuration, KeyFits, HeadersFit, TagsFit,
         ValidatorsFit, Le;
    var payload := new Encoder();
    payload.PushInt(sequence, 8);
    payload.PushInt(access, 8);
    payload.PushDuration(AgeAt(e, now));
    payload.PushDuration(wall);
    ghost var stamp := payload.data;
    var ok := payload.PushKey(e.key);
    if !ok {
      return None;
    }
    payload.PushInt(e.status, 2);
    ok := payload.PushHeaders(e.headers);
    if !ok {
      return None;
    }
    ok := payload.PushLongBytes(e.body);
    if !ok {
      return None;
    }
    ok := payload.PushTags(e.tags);
    if !ok {
      return None;
    }
    payload.PushPolicy(e.policy);
    PolicyIgnoresAge(e, now);
    ok := PushValidators(payload, e.validators);
    if !ok {
      return None;
    }
    payload.PushInt(e.charge, 8);
    ImageParts(stamp, PutKey(e.key), Le(e.status, 2), PutList(PutHeader, e.headers), PutLongBytes(e.body),
               PutList(PutBytes, e.tags), PutPolicy(e.policy), PutValidators(e.validators), Le(e.charge, 8));
    StampParts(sequence, access, AgeAt(e, now), wall);
    r := Some(payload.data);
  }

  method PushValidators(payload: Encoder, v: Validators) returns (ok: bool)
    modifies payload
    ensures ok <==> ValidatorsFit(v)
    ensures ok ==> payload.data == old(payload.data) + PutValidators(v)
  {
    ok := payload.PushOptBytes(v.etag);
    if !ok {
      return;
    }
    ok := payload.PushOptBytes(v.lastModified);
    Appended(old(payload.data), PutOptBytes(v.etag), PutOptBytes(v.lastModified));
  }

  lemma PolicyIgnoresAge(e: Entry, now: Duration)
    ensures PutPolicy(e.policy.(initialAge := AgeAt(e, now))) == PutPolicy(e.policy)
  {
  }

  lemma StampParts(sequence: nat, access: nat, age: Duration, wall: WallTime)
    ensures [] + Le(sequence, 8) + Le(access, 8) + PutDuration(age)
              + PutDuration(wall) == PutStamp(Stamp(sequence, access, age, wall))
  {
    hide PutDuration, Le;
  }

  lemma ImageParts(a: Bytes, b: Bytes, c: Bytes, d: Bytes, e: Bytes, f: Bytes, g: Bytes, h: Bytes, i: Bytes)
    ensures a + b + c + d + e + f + g + h + i == a + (b + (c + (d + (e + (f + (g + (h + i)))))))
  {
  }
}
