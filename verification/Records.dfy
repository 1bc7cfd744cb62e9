/** The persistent record format (`encode_record` and `decode_record` of `disk.rs`). An image
    is what one record says; its policy carries the age at encoding. */
module Records {
  import opened Prelude
  import opened Http
  import opened Keys
  import opened Policy
  import opened Entries
  import opened Codec
  import Identity

  datatype Image = Image(
    sequence: nat, access: nat, wall: WallTime, key: CacheKey, status: nat, headers: Headers, body: Bytes,
    tags: seq<Bytes>, policy: ResponsePolicy, validators: Validators, charge: nat)

  /** What `encode_record` writes for an entry at `now` and wall-clock time `wall`. */
  function ToImage(e: Entry, sequence: nat, access: nat, now: Duration, wall: WallTime): Image {
    Image(sequence, access, wall, e.key, e.status, e.headers, e.body, e.tags,
          e.policy.(initialAge := AgeAt(e, now)), e.validators, e.charge)
  }

  /** What recovery makes of an image at `now` and wall-clock time `wall`. */
  function FromImage(i: Image, owner: nat, now: Duration, wall: WallTime): Entry {
    Entry(owner, i.key, i.status, i.headers, i.body, i.tags,
          i.policy.(initialAge := Plus(i.policy.initialAge, WallSince(wall, i.wall))), i.validators, now, i.charge)
  }

  // ---------------------------------------------------------------- stamp

  datatype Stamp = Stamp(sequence: nat, access: nat, age: Duration, wall: WallTime)

  function PutStamp(t: Stamp): Bytes {
    Le(t.sequence, 8) + (Le(t.access, 8) + (PutDuration(t.age) + PutDuration(t.wall)))
  }

  function ReadStamp(s: Bytes): Parse<Stamp> {
    var (sequence, s1) :- ReadInt(s, 8);
    var (access, s2) :- ReadInt(s1, 8);
    var (age, s3) :- ReadDuration(s2);
    var (wall, s4) :- ReadDuration(s3);
    if wall > WALL_MAX then Fail
    else Got(Stamp(sequence, access, age, wall), s4)
  }

  lemma ReadStampBack(t: Stamp, rest: Bytes)
    requires t.sequence <= U64_MAX && t.access <= U64_MAX
    ensures ReadStamp(PutStamp(t) + rest) == Got(t, rest)
  {
    var s3 := PutDuration(t.wall) + rest;
    var s2 := PutDuration(t.age) + s3;
    var s1 := Le(t.access, 8) + s2;
    assert PutStamp(t) + rest == Le(t.sequence, 8) + s1;
    ReadU64Back(t.sequence, s1);
    ReadU64Back(t.access, s2);
    ReadDurationBack(t.age, s3);
    ReadDurationBack(t.wall, rest);
  }

  // ---------------------------------------------------------------- base key

  function PutBase(b: BaseKey): Bytes {
    PutBytes(b.verb) + (PutBytes(b.scheme) + (PutBytes(b.authority) + (PutBytes(b.path) + PutOptBytes(b.query))))
  }

  predicate Rebuilds(c: Config, b: BaseKey) {
    Identity.NewBaseKey(Identity.AsInput(b), c.maxKeyBytes) == Ok(b) && b.verb == GET
  }

  /** Reads the five parts and accepts them only if `BaseKey::new` rebuilds exactly them. */
  function ReadBase(c: Config, s: Bytes): Parse<BaseKey> {
    var (verb, s1) :- ReadBytes(s, c.maxKeyBytes);
    var (scheme, s2) :- ReadBytes(s1, c.maxKeyBytes);
    var (authority, s3) :- ReadBytes(s2, c.maxKeyBytes);
    var (path, s4) :- ReadBytes(s3, c.maxKeyBytes);
    var (query, s5) :- ReadOptBytes(s4, c.maxKeyBytes);
    var b := BaseKey(verb, scheme, authority, path, query);
    if Rebuilds(c, b) then Got(b, s5) else Fail
  }

  predicate ShortBase(b: BaseKey, bound: nat) {
    |b.verb| <= bound && |b.scheme| <= bound && |b.authority| <= bound && |b.path| <= bound
    && (b.query.Some? ==> |b.query.value| <= bound)
  }

  lemma ReadBaseBack(c: Config, b: BaseKey, rest: Bytes)
    requires Rebuilds(c, b) && ShortBase(b, c.maxKeyBytes) && ShortBase(b, U32_MAX)
    ensures ReadBase(c, PutBase(b) + rest) == Got(b, rest)
  {
    hide Rebuilds;
    var s4 := PutOptBytes(b.query) + rest;
    var s3 := PutBytes(b.path) + s4;
    var s2 := PutBytes(b.authority) + s3;
    var s1 := PutBytes(b.scheme) + s2;
    assert PutBase(b) + rest == PutBytes(b.verb) + s1;
    ReadBytesBack(b.verb, c.maxKeyBytes, s1);
    ReadBytesBack(b.scheme, c.maxKeyBytes, s2);
    ReadBytesBack(b.authority, c.maxKeyBytes, s3);
    ReadBytesBack(b.path, c.maxKeyBytes, s4);
    ReadOptBytesBack(b.query, c.maxKeyBytes, rest);
  }

  // ---------------------------------------------------------------- vary values

  function PutVaryValue(v: VaryValue): Bytes {
    PutBytes(v.name) + (PutBool(v.present) + PutBytes(v.value))
  }

  function ReadVaryValue(c: Config, s: Bytes): Parse<VaryValue> {
    var (raw, s1) :- ReadBytes(s, c.maxHeaderBytes);
    var name := ParseName(raw);
    if name.None? then Fail
    else
      var (present, s2) :- ReadBool(s1);
      var (value, s3) :- ReadBytes(s2, c.maxKeyBytes);
      Got(VaryValue(name.value, present, value), s3)
  }

  predicate ShortVaryValue(c: Config, v: VaryValue) {
    IsName(v.name) && |v.name| <= c.maxHeaderBytes && |v.name| <= U32_MAX && |v.value| <= c.maxKeyBytes
    && |v.value| <= U32_MAX
  }

  lemma ReadVaryValueBack(c: Config, v: VaryValue, rest: Bytes)
    requires ShortVaryValue(c, v)
    ensures ReadVaryValue(c, PutVaryValue(v) + rest) == Got(v, rest)
  {
    var s2 := PutBytes(v.value) + rest;
    var s1 := PutBool(v.present) + s2;
    assert PutVaryValue(v) + rest == PutBytes(v.name) + s1;
    ReadBytesBack(v.name, c.maxHeaderBytes, s1);
    ReadBoolBack(v.present, s2);
    ReadBytesBack(v.value, c.maxKeyBytes, rest);
  }

  function VaryReader(c: Config): Bytes -> Parse<VaryValue> {
    s => ReadVaryValue(c, s)
  }

  predicate NamedVary(c: Config, v: VaryValue) {
    IsName(v.name) && |v.name| <= c.maxHeaderBytes
  }

  lemma VaryReaderInverts(c: Config, v: VaryValue)
    requires ShortVaryValue(c, v)
    ensures Inverts(VaryReader(c), PutVaryValue, v)
  {
    forall rest: Bytes
      ensures VaryReader(c)(PutVaryValue(v) + rest) == Got(v, rest)
    {
      ReadVaryValueBack(c, v, rest);
    }
  }

  lemma VaryReaderYields(c: Config)
    ensures Yields(VaryReader(c), v => NamedVary(c, v))
  {
    forall s: Bytes | ReadVaryValue(c, s).Got?
      ensures NamedVary(c, ReadVaryValue(c, s).value)
    {
      ParseNameIsName(ReadBytes(s, c.maxHeaderBytes).value);
    }
  }

  /** The `windows(2)` test of `decode_record`. */
  predicate AdjacentSorted(vary: seq<VaryValue>) {
    forall i :: 0 <= i < |vary| - 1 ==> Less(vary[i].name, vary[i + 1].name)
  }

  lemma {:induction false} AdjacentImpliesSorted(vary: seq<VaryValue>, i: nat, j: nat)
    requires AdjacentSorted(vary) && i < j < |vary|
    ensures Less(vary[i].name, vary[j].name)
    decreases j - i
  {
    assert Less(vary[j - 1].name, vary[j - 1 + 1].name);
    if i < j - 1 {
      AdjacentImpliesSorted(vary, i, j - 1);
      LessTransitive(vary[i].name, vary[j - 1].name, vary[j].name);
    }
  }

  // ---------------------------------------------------------------- full key

  function PutKey(k: CacheKey): Bytes {
    PutBase(k.base) + PutList(PutVaryValue, k.vary)
  }

  function ReadKey(c: Config, s: Bytes): Parse<CacheKey> {
    var (base, s1) :- ReadBase(c, s);
    var (vary, s2) :- ReadList(VaryReader(c), s1, c.maxVaryFields);
    var key := CacheKey(base, vary);
    if AdjacentSorted(vary) && KeyLen(key) <= c.maxKeyBytes then Got(key, s2) else Fail
  }

  /** Keys whose parts fit their length prefixes. */
  predicate KeyFits(k: CacheKey) {
    ShortBase(k.base, U32_MAX) && |k.vary| <= U32_MAX
    && forall i :: 0 <= i < |k.vary| ==> |k.vary[i].name| <= U32_MAX && |k.vary[i].value| <= U32_MAX
  }

  lemma ReadKeyBack(c: Config, k: CacheKey, rest: Bytes)
    requires BoundedKey(c, k) && Rebuilds(c, k.base) && KeyFits(k)
    ensures ReadKey(c, PutKey(k) + rest) == Got(k, rest)
  {
    hide Rebuilds, CanonicalBase;
    ShortParts(c, k);
    hide ReadBase, PutBase, ReadList, PutList, ShortVaryValue;
    var s1 := PutList(PutVaryValue, k.vary) + rest;
    assert PutKey(k) + rest == PutBase(k.base) + s1;
    ReadBaseBack(c, k.base, s1);
    forall i | 0 <= i < |k.vary|
      ensures Inverts(VaryReader(c), PutVaryValue, k.vary[i])
    {
      VaryReaderInverts(c, k.vary[i]);
    }
    ReadListBack(VaryReader(c), PutVaryValue, k.vary, c.maxVaryFields, rest);
  }

  lemma ShortParts(c: Config, k: CacheKey)
    requires BoundedKey(c, k) && KeyFits(k)
    ensures ShortBase(k.base, c.maxKeyBytes)
    ensures forall i :: 0 <= i < |k.vary| ==> ShortVaryValue(c, k.vary[i])
  {
    forall i | 0 <= i < |k.vary|
      ensures ShortVaryValue(c, k.vary[i])
    {
      VaryLenBoundsEach(k.vary, i);
    }
  }

  lemma ReadBaseBounded(c: Config, s: Bytes)
    ensures ReadBase(c, s).Got? ==> Rebuilds(c, ReadBase(c, s).value) && CanonicalBase(c, ReadBase(c, s).value)
  {
    hide ReadBytes, ReadOptBytes;
  }

  /** Every key that is read back meets the bounds of a prepared key. */
  lemma ReadKeyBounded(c: Config, s: Bytes)
    ensures ReadKey(c, s).Got? ==> BoundedKey(c, ReadKey(c, s).value) && Rebuilds(c, ReadKey(c, s).value.base)
  {
    ReadBaseBounded(c, s);
    hide ReadBase, Rebuilds, CanonicalBase, ReadList;
    if ReadKey(c, s).Got? {
      var k := ReadKey(c, s).value;
      VaryReaderYields(c);
      ReadListYields(VaryReader(c), v => NamedVary(c, v), ReadBase(c, s).rest, c.maxVaryFields);
      assert forall i :: 0 <= i < |k.vary| ==> k.vary[i] in k.vary;
      forall i, j | 0 <= i < j < |k.vary|
        ensures Less(k.vary[i].name, k.vary[j].name)
      {
        AdjacentImpliesSorted(k.vary, i, j);
      }
    }
  }

  // ---------------------------------------------------------------- headers and tags

  function PutHeader(h: Header): Bytes {
    PutBytes(h.name) + PutBytes(h.value)
  }

  function ReadHeader(c: Config, s: Bytes): Parse<Header> {
    var (raw, s1) :- ReadBytes(s, c.maxHeaderBytes);
    var (value, s2) :- ReadBytes(s1, c.maxHeaderBytes);
    var name := ParseName(raw);
    if name.None? || !IsFieldValue(value) then Fail else Got(Header(name.value, value), s2)
  }

  function HeaderReader(c: Config): Bytes -> Parse<Header> {
    s => ReadHeader(c, s)
  }

  predicate ProperHeader(h: Header) {
    IsName(h.name) && IsFieldValue(h.value)
  }

  predicate ShortHeader(h: Header, bound: nat) {
    |h.name| <= bound && |h.value| <= bound
  }

  lemma HeaderReaderInverts(c: Config, h: Header)
    requires ProperHeader(h) && ShortHeader(h, c.maxHeaderBytes) && ShortHeader(h, U32_MAX)
    ensures Inverts(HeaderReader(c), PutHeader, h)
  {
    forall rest: Bytes
      ensures HeaderReader(c)(PutHeader(h) + rest) == Got(h, rest)
    {
      assert PutHeader(h) + rest == PutBytes(h.name) + (PutBytes(h.value) + rest);
      ReadBytesBack(h.name, c.maxHeaderBytes, PutBytes(h.value) + rest);
      ReadBytesBack(h.value, c.maxHeaderBytes, rest);
    }
  }

  lemma HeaderReaderYields(c: Config)
    ensures Yields(HeaderReader(c), ProperHeader)
  {
    forall s: Bytes | ReadHeader(c, s).Got?
      ensures ProperHeader(ReadHeader(c, s).value)
    {
      ParseNameIsName(ReadBytes(s, c.maxHeaderBytes).value);
    }
  }

  /** The list of headers; the running total of `decode_record` is the total at the end. */
  function ReadHeaders(c: Config, s: Bytes): Parse<Headers> {
    var (headers, s1) :- ReadList(HeaderReader(c), s, c.maxHeaderFields);
    if HeaderBytes(headers) <= c.maxHeaderBytes then Got(headers, s1) else Fail
  }

  predicate HeadersFit(headers: Headers) {
    |headers| <= U32_MAX && forall i :: 0 <= i < |headers| ==> ShortHeader(headers[i], U32_MAX)
  }

  lemma ReadHeadersBack(c: Config, headers: Headers, rest: Bytes)
    requires BoundedHeaders(c, headers) && ProperHeaders(headers) && HeadersFit(headers)
    ensures ReadHeaders(c, PutList(PutHeader, headers) + rest) == Got(headers, rest)
  {
    forall i | 0 <= i < |headers|
      ensures Inverts(HeaderReader(c), PutHeader, headers[i])
    {
      HeaderBytesBoundsEach(headers, i);
      HeaderReaderInverts(c, headers[i]);
    }
    hide Inverts, ReadList, PutList;
    ReadListBack(HeaderReader(c), PutHeader, headers, c.maxHeaderFields, rest);
  }

  lemma ReadHeadersBounded(c: Config, s: Bytes)
    ensures ReadHeaders(c, s).Got? ==> BoundedHeaders(c, ReadHeaders(c, s).value)
                                       && ProperHeaders(ReadHeaders(c, s).value)
  {
    HeaderReaderYields(c);
    ReadListYields(HeaderReader(c), ProperHeader, s, c.maxHeaderFields);
    hide ReadList;
    if ReadHeaders(c, s).Got? {
      var headers := ReadHeaders(c, s).value;
      forall i | 0 <= i < |headers|
        ensures IsName(headers[i].name) && IsFieldValue(headers[i].value)
      {
        assert ProperHeader(headers[i]);
      }
    }
  }

  function TagReader(c: Config): Bytes -> Parse<Bytes> {
    s => ReadBytes(s, c.maxTagBytes)
  }

  predicate ProperTags(c: Config, tags: seq<Bytes>) {
    DistinctTags(tags) && forall i :: 0 <= i < |tags| ==> ValidTag(tags[i], c.maxTagBytes)
  }

  function ReadTags(c: Config, s: Bytes): Parse<seq<Bytes>> {
    var (tags, s1) :- ReadList(TagReader(c), s, c.maxTagsPerEntry);
    if ProperTags(c, tags) then Got(tags, s1) else Fail
  }

  predicate TagsFit(tags: seq<Bytes>) {
    |tags| <= U32_MAX && forall i :: 0 <= i < |tags| ==> |tags[i]| <= U32_MAX
  }

  lemma ReadTagsBack(c: Config, tags: seq<Bytes>, rest: Bytes)
    requires BoundedTags(c, tags) && TagsFit(tags)
    ensures ReadTags(c, PutList(PutBytes, tags) + rest) == Got(tags, rest)
  {
    forall i | 0 <= i < |tags|
      ensures Inverts(TagReader(c), PutBytes, tags[i])
    {
      forall rest: Bytes
        ensures TagReader(c)(PutBytes(tags[i]) + rest) == Got(tags[i], rest)
      {
        ReadBytesBack(tags[i], c.maxTagBytes, rest);
      }
    }
    ReadListBack(TagReader(c), PutBytes, tags, c.maxTagsPerEntry, rest);
  }

  // ---------------------------------------------------------------- policy and validators

  /** `RetentionPolicy::keep`. */
  function KeepOf(r: Retention): Option<Duration> {
    if r.Canonical? then Some(r.keep) else None
  }

  function PutWindows(p: ResponsePolicy): Bytes {
    PutDuration(p.lifetime) + (PutDuration(p.staleWhileRevalidate) + PutDuration(p.staleIfError))
  }

  function PutRetention(r: Retention): Bytes {
    PutOptDuration(KeepOf(r)) + PutBool(r.Rfc?)
  }

  function PutFlags(p: ResponsePolicy): Bytes {
    PutBool(p.alwaysRevalidate) + (PutBool(p.mustRevalidateStale) + PutBool(p.allowsAuthorizedReuse))
  }

  function PutPolicy(p: ResponsePolicy): Bytes {
    PutWindows(p) + (PutRetention(p.retention) + PutFlags(p))
  }

  datatype Windows = Windows(lifetime: Duration, whileRevalidate: Duration, onError: Duration)

  function ReadWindows(s: Bytes): Parse<Windows> {
    var (lifetime, s1) :- ReadDuration(s);
    var (whileRevalidate, s2) :- ReadDuration(s1);
    var (onError, s3) :- ReadDuration(s2);
    Got(Windows(lifetime, whileRevalidate, onError), s3)
  }

  datatype Flags = Flags(always: bool, must: bool, authorized: bool)

  function ReadFlags(s: Bytes): Parse<Flags> {
    var (always, s1) :- ReadBool(s);
    var (must, s2) :- ReadBool(s1);
    var (authorized, s3) :- ReadBool(s2);
    Got(Flags(always, must, authorized), s3)
  }

  /** Version 1 records have no retention fields and keep the rules of the RFC. */
  function ReadRetention(s: Bytes, version: nat): Parse<Retention> {
    if version < 2 then Got(Rfc, s)
    else
      var (keep, s1) :- ReadOptDuration(s);
      var (staleAllowed, s2) :- ReadBool(s1);
      if keep.None? && staleAllowed then Got(Rfc, s2)
      else if keep.Some? && !staleAllowed then Got(Canonical(keep.value), s2)
      else Fail
  }

  function ReadPolicy(s: Bytes, version: nat, age: Duration): Parse<ResponsePolicy> {
    var (windows, s1) :- ReadWindows(s);
    var (retention, s2) :- ReadRetention(s1, version);
    var (flags, s3) :- ReadFlags(s2);
    Got(ResponsePolicy(windows.lifetime, age, windows.whileRevalidate, windows.onError, retention,
                       flags.always, flags.must, flags.authorized), s3)
  }

  lemma ReadWindowsBack(p: ResponsePolicy, rest: Bytes)
    ensures ReadWindows(PutWindows(p) + rest) == Got(Windows(p.lifetime, p.staleWhileRevalidate, p.staleIfError), rest)
  {
    var s2 := PutDuration(p.staleIfError) + rest;
    var s1 := PutDuration(p.staleWhileRevalidate) + s2;
    assert PutWindows(p) + rest == PutDuration(p.lifetime) + s1;
    ReadDurationBack(p.lifetime, s1);
    ReadDurationBack(p.staleWhileRevalidate, s2);
    ReadDurationBack(p.staleIfError, rest);
  }

  lemma ReadRetentionBack(r: Retention, rest: Bytes)
    ensures ReadRetention(PutRetention(r) + rest, 2) == Got(r, rest)
  {
    hide PutOptDuration, PutBool, ReadOptDuration, ReadBool;
    assert PutRetention(r) + rest == PutOptDuration(KeepOf(r)) + (PutBool(r.Rfc?) + rest);
    ReadOptDurationBack(KeepOf(r), PutBool(r.Rfc?) + rest);
    ReadBoolBack(r.Rfc?, rest);
  }

  lemma ReadFlagsBack(p: ResponsePolicy, rest: Bytes)
    ensures ReadFlags(PutFlags(p) + rest) ==
              Got(Flags(p.alwaysRevalidate, p.mustRevalidateStale, p.allowsAuthorizedReuse), rest)
  {
    var s2 := PutBool(p.allowsAuthorizedReuse) + rest;
    var s1 := PutBool(p.mustRevalidateStale) + s2;
    assert PutFlags(p) + rest == PutBool(p.alwaysRevalidate) + s1;
    ReadBoolBack(p.alwaysRevalidate, s1);
    ReadBoolBack(p.mustRevalidateStale, s2);
    ReadBoolBack(p.allowsAuthorizedReuse, rest);
  }

  lemma ReadPolicyBack(p: ResponsePolicy, rest: Bytes)
    ensures ReadPolicy(PutPolicy(p) + rest, 2, p.initialAge) == Got(p, rest)
  {
    hide PutWindows, PutRetention, PutFlags, ReadWindows, ReadRetention, ReadFlags;
    var s2 := PutFlags(p) + rest;
    var s1 := PutRetention(p.retention) + s2;
    assert PutPolicy(p) + rest == PutWindows(p) + s1;
    ReadWindowsBack(p, s1);
    ReadRetentionBack(p.retention, s2);
    ReadFlagsBack(p, rest);
  }

  function PutValidators(v: Validators): Bytes {
    PutOptBytes(v.etag) + PutOptBytes(v.lastModified)
  }

  predicate ProperValidator(v: Option<Bytes>) {
    v.Some? ==> IsFieldValue(v.value)
  }

  function ReadValidators(c: Config, s: Bytes): Parse<Validators> {
    var (etag, s1) :- ReadOptBytes(s, c.maxHeaderBytes);
    var (lastModified, s2) :- ReadOptBytes(s1, c.maxHeaderBytes);
    if ProperValidator(etag) && ProperValidator(lastModified) then Got(Validators(etag, lastModified), s2) else Fail
  }

  predicate ValidatorsFit(v: Validators) {
    (v.etag.Some? ==> |v.etag.value| <= U32_MAX) && (v.lastModified.Some? ==> |v.lastModified.value| <= U32_MAX)
  }

  lemma ReadValidatorsBack(c: Config, v: Validators, rest: Bytes)
    requires BoundedValidator(c, v.etag) && BoundedValidator(c, v.lastModified) && ValidatorsFit(v)
    ensures ReadValidators(c, PutValidators(v) + rest) == Got(v, rest)
  {
    assert PutValidators(v) + rest == PutOptBytes(v.etag) + (PutOptBytes(v.lastModified) + rest);
    ReadOptBytesBack(v.etag, c.maxHeaderBytes, PutOptBytes(v.lastModified) + rest);
    ReadOptBytesBack(v.lastModified, c.maxHeaderBytes, rest);
  }

  lemma ReadOptBytesBounded(s: Bytes, maximum: nat)
    ensures var r := ReadOptBytes(s, maximum); r.Got? && r.value.Some? ==> |r.value.value| <= maximum
  {
  }

  // ---------------------------------------------------------------- payload

  function StampOf(i: Image): Stamp {
    Stamp(i.sequence, i.access, i.policy.initialAge, i.wall)
  }

  function PutImage(i: Image): Bytes {
    PutStamp(StampOf(i)) + (PutKey(i.key) + (Le(i.status, 2) + (PutList(PutHeader, i.headers) + (PutLongBytes(i.body)
      + (PutList(PutBytes, i.tags) + (PutPolicy(i.policy) + (PutValidators(i.validators) + Le(i.charge, 8))))))))
  }

  function ReadImage(c: Config, s: Bytes, version: nat): Parse<Image> {
    var (stamp, s1) :- ReadStamp(s);
    var (key, s2) :- ReadKey(c, s1);
    var (status, s3) :- ReadInt(s2, 2);
    if status < 100 || status > 999 then Fail
    else
      var (headers, s4) :- ReadHeaders(c, s3);
      var (body, s5) :- ReadLongBytes(s4, c.maxBodyBytes);
      var (tags, s6) :- ReadTags(c, s5);
      var (policy, s7) :- ReadPolicy(s6, version, stamp.age);
      var (validators, s8) :- ReadValidators(c, s7);
      var (charge, s9) :- ReadInt(s8, 8);
      if charge == Charge(key, headers, |body|, tags) && charge <= c.maxObjectBytes && charge <= c.maxTotalBytes
      then Got(Image(stamp.sequence, stamp.access, stamp.wall, key, status, headers, body, tags, policy, validators,
                     charge), s9)
      else Fail
  }

  /** Images that fit the widths of the format: what `encode_record` succeeds on. */
  predicate Encodable(i: Image) {
    && i.sequence <= U64_MAX && i.access <= U64_MAX && i.status <= U16_MAX && i.charge <= U64_MAX
    && KeyFits(i.key) && HeadersFit(i.headers) && |i.body| <= U64_MAX && TagsFit(i.tags) && ValidatorsFit(i.validators)
  }

  /** The bounds of a prepared entry, for an image. */
  predicate BoundedImage(c: Config, i: Image) {
    && BoundedKey(c, i.key)
    && 100 <= i.status <= 999
    && BoundedHeaders(c, i.headers) && ProperHeaders(i.headers)
    && |i.body| <= c.maxBodyBytes
    && BoundedTags(c, i.tags)
    && BoundedValidator(c, i.validators.etag) && BoundedValidator(c, i.validators.lastModified)
    && i.charge == Charge(i.key, i.headers, |i.body|, i.tags)
    && i.charge <= c.maxObjectBytes && i.charge <= c.maxTotalBytes
  }

  lemma ReadImageBack(c: Config, i: Image, rest: Bytes)
    requires BoundedImage(c, i) && Encodable(i) && Rebuilds(c, i.key.base)
    ensures ReadImage(c, PutImage(i) + rest, 2) == Got(i, rest)
  {
    hide Rebuilds, BoundedKey, BoundedHeaders, ProperHeaders, BoundedTags, KeyFits, HeadersFit, TagsFit, ValidatorsFit,
         BoundedValidator;
    hide PutStamp, PutKey, PutList, PutLongBytes, PutPolicy, PutValidators, Le, Charge;
    hide ReadStamp, ReadKey, ReadInt, ReadHeaders, ReadLongBytes, ReadTags, ReadPolicy, ReadValidators;
    var s8 := Le(i.charge, 8) + rest;
    var s7 := PutValidators(i.validators) + s8;
    var s6 := PutPolicy(i.policy) + s7;
    var s5 := PutList(PutBytes, i.tags) + s6;
    var s4 := PutLongBytes(i.body) + s5;
    var s3 := PutList(PutHeader, i.headers) + s4;
    var s2 := Le(i.status, 2) + s3;
    var s1 := PutKey(i.key) + s2;
    assert PutImage(i) + rest == PutStamp(StampOf(i)) + s1;
    ReadStampBack(StampOf(i), s1);
    ReadKeyBack(c, i.key, s2);
    ReadU16Back(i.status, s3);
    ReadHeadersBack(c, i.headers, s4);
    ReadLongBytesBack(i.body, c.maxBodyBytes, s5);
    ReadTagsBack(c, i.tags, s6);
    ReadPolicyBack(i.policy, s7);
    ReadValidatorsBack(c, i.validators, s8);
    ReadU64Back(i.charge, rest);
  }

  // ---------------------------------------------------------------- records

  const MAGIC: Bytes := Ascii("OXICACHE")
  const VERSION: nat := 2
  const HEADER_BYTES: nat := 22

  /** `encode_record`; `None` is the oversized field error. The checksum is any function of
      the payload. */
  function Encode(crc: Bytes -> U32, i: Image): Option<Bytes> {
    if !Encodable(i) then None
    else
      var payload := PutImage(i);
      Some(MAGIC + (Le(VERSION, 2) + (Le(|payload|, 8) + (Le(crc(payload), 4) + payload))))
  }

  /** `decode_record`, up to the ages, which `FromImage` adds. */
  function Decode(c: Config, crc: Bytes -> U32, record: Bytes): Option<Image> {
    if |record| < HEADER_BYTES || record[..8] != MAGIC then None
    else
      var version := FromLe(record[8..10]);
      var length := FromLe(record[10..18]);
      var checksum := FromLe(record[18..22]);
      var payload := record[HEADER_BYTES..];
      if (version != 1 && version != VERSION) || length != |payload| || crc(payload) != checksum then None
      else
        var image := ReadImage(c, payload, version);
        if image.Got? && image.rest == [] then Some(image.value) else None
  }

  lemma HeaderParts(crc: Bytes -> U32, i: Image)
    requires Encodable(i) && |PutImage(i)| <= U64_MAX
    ensures var payload := PutImage(i);
            var record := Encode(crc, i).value;
            && |record| == 22 + |payload|
            && record[..8] == Ascii("OXICACHE") && FromLe(record[8..10]) == 2
            && FromLe(record[10..18]) == |payload| && FromLe(record[18..22]) == crc(payload)
            && record[HEADER_BYTES..] == payload
  {
    var payload := PutImage(i);
    hide PutImage;
    var record := Encode(crc, i).value;
    assert |MAGIC| == 8;
    Widths();
    LeRoundTrip(VERSION, 2);
    LeRoundTrip(|payload|, 8);
    LeRoundTrip(crc(payload), 4);
    assert record[..8] == MAGIC;
    assert record[8..10] == Le(VERSION, 2);
    assert record[10..18] == Le(|payload|, 8);
    assert record[18..22] == Le(crc(payload), 4);
    assert record[HEADER_BYTES..] == payload;
  }

  /** Round trip: what `encode_record` writes for bounded content, `decode_record` reads back
      under the same limits, whatever the checksum function. */
  lemma RoundTrip(c: Config, crc: Bytes -> U32, i: Image)
    requires BoundedImage(c, i) && Encodable(i) && Rebuilds(c, i.key.base) && |PutImage(i)| <= U64_MAX
    ensures Encode(crc, i).Some? && Decode(c, crc, Encode(crc, i).value) == Some(i)
  {
    HeaderParts(crc, i);
    ReadImageBack(c, i, []);
    assert PutImage(i) + [] == PutImage(i);
  }

  // ---------------------------------------------------------------- soundness of decoding

  lemma ReadValidatorsBounded(c: Config, s: Bytes)
    ensures ReadValidators(c, s).Got? ==>
              BoundedValidator(c, ReadValidators(c, s).value.etag)
              && BoundedValidator(c, ReadValidators(c, s).value.lastModified)
  {
    var etag := ReadOptBytes(s, c.maxHeaderBytes);
    ReadOptBytesBounded(s, c.maxHeaderBytes);
    if etag.Got? {
      ReadOptBytesBounded(etag.rest, c.maxHeaderBytes);
    }
  }

  lemma ReadTagsBounded(c: Config, s: Bytes)
    ensures ReadTags(c, s).Got? ==> BoundedTags(c, ReadTags(c, s).value)
  {
  }

  lemma ReadBodyBounded(s: Bytes, maximum: nat)
    ensures ReadLongBytes(s, maximum).Got? ==> |ReadLongBytes(s, maximum).value| <= maximum
  {
  }

  /** Whatever bytes are on disk, a record that decodes meets every bound `prepare` imposes,
      so recovery cannot break the limits of the memory cache. */
  lemma DecodedIsBounded(c: Config, crc: Bytes -> U32, record: Bytes)
    ensures Decode(c, crc, record).Some? ==>
              BoundedImage(c, Decode(c, crc, record).value) && Rebuilds(c, Decode(c, crc, record).value.key.base)
  {
    if Decode(c, crc, record).Some? {
      ReadImageBounded(c, record[HEADER_BYTES..], FromLe(record[8..10]));
    }
  }

  lemma ReadImageBounded(c: Config, s: Bytes, version: nat)
    ensures ReadImage(c, s, version).Got? ==>
              BoundedImage(c, ReadImage(c, s, version).value) && Rebuilds(c, ReadImage(c, s, version).value.key.base)
  {
    hide Rebuilds, BoundedKey, BoundedHeaders, ProperHeaders, BoundedTags, BoundedValidator, Charge;
    hide ReadStamp, ReadKey, ReadInt, ReadHeaders, ReadLongBytes, ReadTags, ReadPolicy, ReadValidators;
    if ReadImage(c, s, version).Got? {
      var s1 := ReadStamp(s).rest;
      var s2 := ReadKey(c, s1).rest;
      var s3 := ReadInt(s2, 2).rest;
      var s4 := ReadHeaders(c, s3).rest;
      var s5 := ReadLongBytes(s4, c.maxBodyBytes).rest;
      var s6 := ReadTags(c, s5).rest;
      var s7 := ReadPolicy(s6, version, ReadStamp(s).value.age).rest;
      ReadKeyBounded(c, s1);
      ReadHeadersBounded(c, s3);
      ReadBodyBounded(s4, c.maxBodyBytes);
      ReadTagsBounded(c, s5);
      ReadValidatorsBounded(c, s7);
    }
  }
}
