/** Stored representations: limits, accounting and the bounds every admitted entry meets
    (`CacheConfig`, `PreparedEntry`, `object_charge`, `parse_tags` of `cache.rs`). */
module Entries {
  import opened Prelude
  import opened Http
  import opened Keys
  import opened Policy
  import Identity

  datatype Config = Config(
    maxEntries: nat, maxTotalBytes: nat, maxObjectBytes: nat, maxHeaderBytes: nat, maxHeaderFields: nat,
    maxBodyBytes: nat, maxKeyBytes: nat, maxVaryFields: nat, maxTagsPerEntry: nat, maxTagBytes: nat,
    maxInFlight: nat, maxFollowersPerFill: nat, maxHeuristic: Duration)

  /** `validate_config`. */
  predicate ValidConfig(c: Config) {
    && 0 < c.maxEntries && 0 < c.maxTotalBytes && 0 < c.maxObjectBytes && 0 < c.maxHeaderBytes
    && 0 < c.maxHeaderFields && 0 < c.maxBodyBytes && 0 < c.maxKeyBytes && 0 < c.maxVaryFields
    && 0 < c.maxTagsPerEntry && 0 < c.maxTagBytes && 0 < c.maxInFlight && 0 < c.maxFollowersPerFill
    && c.maxObjectBytes <= c.maxTotalBytes && c.maxBodyBytes <= c.maxObjectBytes
  }

  /** The byte quota is below the largest size, so the saturating test of the eviction
      loop still sees an overflow (see `SaturatedTestIsExact`). */
  predicate Accountable(c: Config) {
    ValidConfig(c) && c.maxTotalBytes < USIZE_MAX
  }

  /** The saturating comparison in the eviction guard agrees with exact arithmetic for all
      sizes exactly when the quota is below the largest size. */
  lemma SaturatedTestIsExact(quota: nat)
    requires quota <= USIZE_MAX
    ensures (forall used: nat, charge: nat :: used <= USIZE_MAX && charge <= USIZE_MAX ==>
               (SatAdd(used, charge) > quota <==> used + charge > quota))
        <==> quota < USIZE_MAX
  {
    if quota == USIZE_MAX {
      var used: nat, charge: nat := USIZE_MAX, 1;
      assert !(SatAdd(used, charge) > quota) && used + charge > quota;
    }
  }

  datatype Validators = Validators(etag: Option<Bytes>, lastModified: Option<Bytes>)

  datatype Entry = Entry(
    owner: nat, key: CacheKey, status: nat, headers: Headers, body: Bytes, tags: seq<Bytes>,
    policy: ResponsePolicy, validators: Validators, received: Duration, charge: nat)

  // ---------------------------------------------------------------- accounting

  const ENTRY_OVERHEAD: nat := 128
  const HEADER_OVERHEAD: nat := 32
  const TAG_OVERHEAD: nat := 16

  function HeaderCharge(headers: Headers): nat {
    HEADER_OVERHEAD * |headers| + HeaderBytes(headers)
  }

  function TagBytes(tags: seq<Bytes>): nat {
    if tags == [] then 0 else TagBytes(tags[..|tags| - 1]) + |tags[|tags| - 1]|
  }

  function TagCharge(tags: seq<Bytes>): nat {
    TAG_OVERHEAD * |tags| + TagBytes(tags)
  }

  /** The charge of a representation in exact arithmetic. */
  function Charge(key: CacheKey, headers: Headers, bodyBytes: nat, tags: seq<Bytes>): nat {
    ENTRY_OVERHEAD + KeyLen(key) + HeaderCharge(headers) + bodyBytes + TagCharge(tags)
  }

  function CheckedAdd(a: Option<nat>, b: nat): Option<nat> {
    if a.None? || a.value + b > USIZE_MAX then None else Some(a.value + b)
  }

  /** `object_charge`: the checked additions fail exactly when the exact charge does not fit. */
  method ObjectCharge(key: CacheKey, headers: Headers, bodyBytes: nat, tags: seq<Bytes>) returns (r: Option<nat>)
    ensures var exact := Charge(key, headers, bodyBytes, tags);
            r == if exact <= USIZE_MAX then Some(exact) else None
  {
    var charge := CheckedAdd(Some(ENTRY_OVERHEAD), KeyLen(key));
    for i := 0 to |headers|
      invariant var part := ENTRY_OVERHEAD + KeyLen(key) + HeaderCharge(headers[..i]);
                charge == if part <= USIZE_MAX then Some(part) else None
    {
      assert headers[..i + 1][..i] == headers[..i];
      charge := CheckedAdd(CheckedAdd(CheckedAdd(charge, HEADER_OVERHEAD), |headers[i].name|), |headers[i].value|);
    }
    assert headers[..|headers|] == headers;
    charge := CheckedAdd(charge, bodyBytes);
    for i := 0 to |tags|
      invariant var part := ENTRY_OVERHEAD + KeyLen(key) + HeaderCharge(headers) + bodyBytes + TagCharge(tags[..i]);
                charge == if part <= USIZE_MAX then Some(part) else None
    {
      assert tags[..i + 1][..i] == tags[..i];
      charge := CheckedAdd(CheckedAdd(charge, TAG_OVERHEAD), |tags[i]|);
    }
    assert tags[..|tags|] == tags;
    r := charge;
  }

  // ---------------------------------------------------------------- tags

  /** `validate_tag`. */
  predicate ValidTag(tag: Bytes, maxBytes: nat) {
    tag != [] && |tag| <= maxBytes
    && forall i :: 0 <= i < |tag| ==> 33 <= tag[i] <= 126 && tag[i] != COMMA && tag[i] != QUOTE
  }

  predicate DistinctTags(tags: seq<Bytes>) {
    forall i, j :: 0 <= i < j < |tags| ==> tags[i] != tags[j]
  }

  predicate BoundedTags(c: Config, tags: seq<Bytes>) {
    && |tags| <= c.maxTagsPerEntry
    && DistinctTags(tags)
    && forall i :: 0 <= i < |tags| ==> ValidTag(tags[i], c.maxTagBytes)
  }

  datatype TagError = InvalidTag | TooManyTags

  /** Each tag once, in order of first appearance. */
  function FirstOccurrences(raw: seq<Bytes>): (tags: seq<Bytes>)
    ensures forall t :: t in tags <==> t in raw
    ensures DistinctTags(tags) && |tags| <= |raw|
  {
    if raw == [] then []
    else
      var n := |raw| - 1;
      var front := FirstOccurrences(raw[..n]);
      assert raw == raw[..n] + [raw[n]];
      if raw[n] in front then front else front + [raw[n]]
  }

  /** `parse_tags`. */
  method ParseTags(c: Config, raw: seq<Bytes>) returns (r: Result<seq<Bytes>, TagError>)
    ensures r.Ok? ==> BoundedTags(c, r.value) && r.value == FirstOccurrences(raw)
    ensures r.Err? <==> |raw| > c.maxTagsPerEntry || exists i :: 0 <= i < |raw| && !ValidTag(raw[i], c.maxTagBytes)
    ensures r.Err? ==> r.error == if |raw| > c.maxTagsPerEntry then TooManyTags else InvalidTag
  {
    if |raw| > c.maxTagsPerEntry {
      return Err(TooManyTags);
    }
    var parsed: seq<Bytes> := [];
    for i := 0 to |raw|
      invariant parsed == FirstOccurrences(raw[..i])
      invariant forall j :: 0 <= j < |parsed| ==> ValidTag(parsed[j], c.maxTagBytes)
      invariant forall j :: 0 <= j < i ==> ValidTag(raw[j], c.maxTagBytes)
    {
      if !ValidTag(raw[i], c.maxTagBytes) {
        return Err(InvalidTag);
      }
      assert raw[..i + 1][..i] == raw[..i];
      if raw[i] !in parsed {
        parsed := parsed + [raw[i]];
      }
    }
    assert raw[..|raw|] == raw;
    r := Ok(parsed);
  }

  // ---------------------------------------------------------------- bounds of admitted entries

  predicate BoundedHeaders(c: Config, headers: Headers) {
    |headers| <= c.maxHeaderFields && HeaderBytes(headers) <= c.maxHeaderBytes
  }

  predicate ProperHeaders(headers: Headers) {
    forall i :: 0 <= i < |headers| ==> IsName(headers[i].name) && IsFieldValue(headers[i].value)
  }

  predicate BoundedVary(c: Config, vary: seq<VaryValue>) {
    && |vary| <= c.maxVaryFields
    && (forall i :: 0 <= i < |vary| ==> IsName(vary[i].name) && |vary[i].name| <= c.maxHeaderBytes)
    && forall i, j :: 0 <= i < j < |vary| ==> Less(vary[i].name, vary[j].name)
  }

  /** A base key that came out of `BaseKey::new` for a GET or HEAD request. */
  predicate CanonicalBase(c: Config, base: BaseKey) {
    && base.verb == GET
    && BaseLen(base) <= c.maxKeyBytes
    && (base.authority != [] ==> Identity.NewBaseKey(Identity.AsInput(base), c.maxKeyBytes) == Ok(base))
  }

  predicate BoundedKey(c: Config, key: CacheKey) {
    CanonicalBase(c, key.base) && BoundedVary(c, key.vary) && KeyLen(key) <= c.maxKeyBytes
  }

  predicate BoundedValidator(c: Config, v: Option<Bytes>) {
    v.Some? ==> |v.value| <= c.maxHeaderBytes && IsFieldValue(v.value)
  }

  /** What `prepare` guarantees of an entry it accepts and `decode_record` of one it restores. */
  predicate Bounded(c: Config, e: Entry) {
    && BoundedKey(c, e.key)
    && 100 <= e.status <= 999
    && BoundedHeaders(c, e.headers) && ProperHeaders(e.headers)
    && |e.body| <= c.maxBodyBytes
    && BoundedTags(c, e.tags)
    && BoundedValidator(c, e.validators.etag) && BoundedValidator(c, e.validators.lastModified)
    && e.charge == Charge(e.key, e.headers, |e.body|, e.tags)
    && e.charge <= c.maxObjectBytes && e.charge <= c.maxTotalBytes
  }

  /** The same representation; only the age and the moment of arrival may differ. */
  predicate SameRepresentation(a: Entry, b: Entry) {
    && a.key == b.key && a.status == b.status && a.headers == b.headers && a.body == b.body && a.tags == b.tags
    && a.validators == b.validators && a.charge == b.charge && a.policy.(initialAge := 0) == b.policy.(initialAge := 0)
  }

  function AgeAt(e: Entry, now: Duration): Duration {
    ResidentAge(e.policy.initialAge, e.received, now)
  }
}
