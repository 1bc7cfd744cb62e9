/** What the record format guarantees for entries: exact round trips, stable record sizes
    and the continuity of ages through any number of touches and restarts. */
module RecordFacts {
  import opened Prelude
  import opened Http
  import opened Keys
  import opened Policy
  import opened Entries
  import opened Codec
  import opened Records
  import opened Prepare
  import Identity

  // ---------------------------------------------------------------- same content, other stamp

  /** Images that differ at most in sequence, access, age and wall-clock time. */
  predicate SameContent(i: Image, j: Image) {
    && i.key == j.key && i.status == j.status && i.headers == j.headers && i.body == j.body && i.tags == j.tags
    && i.policy.(initialAge := 0) == j.policy.(initialAge := 0) && i.validators == j.validators && i.charge == j.charge
  }

  /** An image holds the representation of an entry. */
  predicate Represents(i: Image, e: Entry) {
    SameContent(i, ToImage(e, 0, 0, 0, 0))
  }

  lemma StampWidth(t: Stamp)
    ensures |PutStamp(t)| == 40
  {
  }

  lemma PolicyBytesIgnoreAge(p: ResponsePolicy, q: ResponsePolicy)
    requires p.(initialAge := 0) == q.(initialAge := 0)
    ensures PutPolicy(p) == PutPolicy(q)
  {
  }

  /** Re-encoding an entry at another time gives a record of the same size: a touch changes
      no quota. */
  lemma SameSize(crc: Bytes -> U32, i: Image, j: Image)
    requires SameContent(i, j) && Encodable(i)
    requires j.sequence <= U64_MAX && j.access <= U64_MAX
    ensures Encode(crc, j).Some? && |Encode(crc, i).value| == |Encode(crc, j).value|
    ensures |PutImage(i)| == |PutImage(j)|
  {
    StampWidth(StampOf(i));
    StampWidth(StampOf(j));
    PolicyBytesIgnoreAge(i.policy, j.policy);
    hide PutStamp, PutKey, PutList, PutLongBytes, PutPolicy, PutValidators, KeyFits, HeadersFit, TagsFit, ValidatorsFit;
  }

  lemma RecordAtLeast(crc: Bytes -> U32, i: Image)
    requires Encode(crc, i).Some?
    ensures |Encode(crc, i).value| >= HEADER_BYTES
  {
    assert |MAGIC| == 8;
    hide PutImage, Encodable;
  }

  // ---------------------------------------------------------------- entries through the disk

  lemma EntryImageBounded(c: Config, e: Entry, sequence: nat, access: nat, now: Duration, wall: WallTime)
    requires Bounded(c, e)
    ensures BoundedImage(c, ToImage(e, sequence, access, now, wall))
  {
    hide BoundedKey, BoundedHeaders, ProperHeaders, BoundedTags, BoundedValidator, Charge;
  }

  lemma RebuildsIffAuthority(c: Config, b: BaseKey)
    requires CanonicalBase(c, b)
    ensures Rebuilds(c, b) <==> b.authority != []
  {
    assert Identity.AfterUserinfo([]) == [];
  }

  /** `e` as it looks after being encoded at one time and decoded at another. */
  function Moved(e: Entry, owner: nat, now: Duration, wall: WallTime, now': Duration, wall': WallTime): Entry {
    e.(owner := owner, received := now', policy := e.policy.(initialAge := Plus(AgeAt(e, now), WallSince(wall', wall))))
  }

  /** Limits under which whatever is accepted fits the length prefixes of a record. */
  predicate Framed(c: Config) {
    && c.maxKeyBytes <= U32_MAX && c.maxHeaderBytes <= U32_MAX && c.maxHeaderFields <= U32_MAX
    && c.maxVaryFields <= U32_MAX
    && c.maxTagsPerEntry <= U32_MAX && c.maxTagBytes <= U32_MAX && c.maxTotalBytes + 2 * c.maxHeaderBytes
         + 16 <= U64_MAX
  }

  /** No part of the entry outgrows its 32-bit length or count. */
  predicate Prefixed(e: Entry) {
    KeyFits(e.key) && HeadersFit(e.headers) && TagsFit(e.tags) && ValidatorsFit(e.validators)
  }

  /** An admitted entry encodes exactly if no part outgrows its prefix: the other widths of the
      format always suffice. */
  lemma EncodesIff(c: Config, crc: Bytes -> U32, e: Entry, sequence: nat, access: nat, now: Duration, wall: WallTime)
    requires Bounded(c, e) && c.maxTotalBytes <= USIZE_MAX && sequence <= U64_MAX && access <= U64_MAX
    ensures Encode(crc, ToImage(e, sequence, access, now, wall)).Some? <==> Prefixed(e)
  {
    hide KeyFits, HeadersFit, TagsFit, ValidatorsFit, PutImage, BoundedKey, BoundedHeaders, ProperHeaders, BoundedTags,
         BoundedValidator, KeyLen, HeaderCharge;
  }

  /** Every entry `prepare` accepts encodes: its bounds imply those of every prefix. */
  lemma AcceptedEncodes(c: Config, e: Entry, sequence: nat, access: nat, now: Duration, wall: WallTime)
    requires Bounded(c, e) && Framed(c) && sequence <= U64_MAX && access <= U64_MAX
    ensures Encodable(ToImage(e, sequence, access, now, wall))
            && |PutImage(ToImage(e, sequence, access, now, wall))| <= U64_MAX
  {
    hide CanonicalBase, ProperHeaders, DistinctTags, PutImage, IsName, Less, IsFieldValue;
    forall i | 0 <= i < |e.headers|
      ensures ShortHeader(e.headers[i], U32_MAX)
    {
      HeaderBytesBoundsEach(e.headers, i);
    }
    forall i | 0 <= i < |e.key.vary|
      ensures |e.key.vary[i].name| <= U32_MAX && |e.key.vary[i].value| <= U32_MAX
    {
      VaryLenBoundsEach(e.key.vary, i);
    }
    ImageSize(c, ToImage(e, sequence, access, now, wall));
  }

  lemma {:induction false} HeadersSize(headers: Headers)
    ensures |PutMany(PutHeader, headers)| == HeaderBytes(headers) + 8 * |headers|
  {
    if headers != [] {
      var front, last := headers[..|headers| - 1], headers[|headers| - 1];
      HeadersSize(front);
      assert headers == front + [last];
      PutManyAppend(PutHeader, front, last);
    }
  }

  lemma {:induction false} TagsSize(tags: seq<Bytes>)
    ensures |PutMany(PutBytes, tags)| == TagBytes(tags) + 4 * |tags|
  {
    if tags != [] {
      var front, last := tags[..|tags| - 1], tags[|tags| - 1];
      TagsSize(front);
      assert tags == front + [last];
      PutManyAppend(PutBytes, front, last);
    }
  }

  lemma {:induction false} VarySize(vary: seq<VaryValue>)
    ensures |PutMany(PutVaryValue, vary)| == VaryLen(vary)
  {
    if vary != [] {
      var front, last := vary[..|vary| - 1], vary[|vary| - 1];
      VarySize(front);
      assert vary == front + [last];
      PutManyAppend(PutVaryValue, front, last);
    }
  }

  lemma BaseSize(b: BaseKey)
    ensures |PutBase(b)| <= BaseLen(b) + 1
  {
  }

  lemma PolicySize(p: ResponsePolicy)
    ensures |PutPolicy(p)| <= 53
  {
  }

  /** A payload is hardly larger than the charge of its entry. */
  lemma ImageSize(c: Config, i: Image)
    requires i.charge == Charge(i.key, i.headers, |i.body|, i.tags)
    requires BoundedValidator(c, i.validators.etag) && BoundedValidator(c, i.validators.lastModified)
    ensures |PutImage(i)| <= i.charge + 2 * c.maxHeaderBytes + 16
  {
    hide PutStamp, PutBase, PutPolicy, PutMany, HeaderBytes, TagBytes, VaryLen, BaseLen, IsFieldValue;
    StampWidth(StampOf(i));
    BaseSize(i.key.base);
    VarySize(i.key.vary);
    HeadersSize(i.headers);
    TagsSize(i.tags);
    PolicySize(i.policy);
  }

  /** The simplest request there is. */
  function PlainRequest(): KeyInput {
    KeyInput(GET, [97], [97], [47], None, [])
  }

  function PlainKey(): CacheKey {
    CacheKey(BaseKey(GET, [97], [97], [47], None), [])
  }

  lemma PlainBase(maxBytes: nat)
    requires maxBytes >= 26
    ensures Identity.NewBaseKey(PlainRequest(), maxBytes) == Ok(PlainKey().base)
    ensures KeyLen(PlainKey()) == 26 && GET != HEAD
  {
    assert |GET| == 3 && |HEAD| == 4;
    assert LowerAll([97]) == [97];
    Identity.PlainParses([97], []);
    assert [97] + [] == [97];
    assert Identity.CanonicalAuthority([97], [97]) == Ok([97]);
  }

  /** A response with one long header value. */
  function LongResponse(): CacheResponse {
    var none := CacheControl(false, false, false, false, false, false, false, false, None, None, None, None, None,
                             None);
    CacheResponse(200, [Header([97], seq(U32_MAX + 1, _ => 97))], [], Timing(0, 0, 0), [], Some(none),
                  Some(ResponseDates(None, None, 0, 0)))
  }

  function LongEntry(c: Config, owner: nat): Entry {
    var r := LongResponse();
    var policy := EvaluateFreshness(200, r.control.value, r.dates.value, r.timing, c.maxHeuristic, None);
    Entry(owner, PlainKey(), 200, r.headers, [], [], if policy.Some? then policy.value
                                                     else ResponsePolicy(0, 0, 0, 0, Rfc, false, false, false),
          Validators(None, None), 0, Charge(PlainKey(), r.headers, 0, []))
  }

  lemma {:induction false} NoSuchHeader(name: Bytes)
    requires |name| > 1
    ensures ValuesOf(LongResponse().headers, name) == [] && !HasHeader(LongResponse().headers, name)
  {
    assert LongResponse().headers[1..] == [];
  }

  lemma LongStorable(c: Config)
    ensures Storable(c, [], LongResponse(), None)
    ensures Varied(LongResponse()) == [] && ResponseValidators(LongResponse().headers) == Some(Validators(None, None))
  {
    NoSuchHeader(Ascii("set-cookie"));
    NoSuchHeader(Ascii("vary"));
    NoSuchHeader(Ascii("etag"));
    NoSuchHeader(Ascii("last-modified"));
    assert LongResponse().headers[0].name == [97];
    assert forall n :: n in PROHIBITED ==> |n| > 1;
    assert !HasHopByHop(LongResponse().headers);
    assert !HasHeader([], Ascii("authorization"));
  }

  lemma LongBounded(c: Config, owner: nat)
    requires c.maxHeaderBytes >= U32_MAX + 2 && c.maxHeaderFields >= 1 && c.maxKeyBytes >= 26
    requires c.maxObjectBytes >= U32_MAX + 200 && c.maxTotalBytes >= U32_MAX + 200
    ensures Bounded(c, LongEntry(c, owner))
  {
    hide EvaluateFreshness;
    var e := LongEntry(c, owner);
    PlainBase(c.maxKeyBytes);
    assert Identity.AsInput(PlainKey().base) == PlainRequest();
    hide Identity.NewBaseKey;
    assert e.headers[..0] == [] && HeaderBytes(e.headers) == U32_MAX + 2;
    assert LowerAll([97]) == [97] && IsName([97]) && IsFieldValue(e.headers[0].value);
    assert CanonicalBase(c, e.key.base) && BoundedKey(c, e.key) && BoundedTags(c, []);
  }

  /** Under larger limits `prepare` accepts a response with a header value longer than a 32-bit
      length, and the entry it makes does not encode. */
  lemma OversizedDoesNotEncode(c: Config, owner: nat, sequence: nat, access: nat, now: Duration, wall: WallTime)
    requires c.maxHeaderBytes >= U32_MAX + 2 && c.maxHeaderFields >= 1 && c.maxKeyBytes >= 26
    requires c.maxObjectBytes >= U32_MAX + 200 && c.maxTotalBytes >= U32_MAX + 200
    ensures Admits(c, owner, PlainRequest(), LongResponse(), None, LongEntry(c, owner))
    ensures !Encodable(ToImage(LongEntry(c, owner), sequence, access, now, wall))
  {
    hide Identity.NewBaseKey, EvaluateFreshness, ResponseValidators, Varied, Storable, Bounded;
    LongStorable(c);
    LongBounded(c, owner);
    PlainBase(c.maxKeyBytes);
    BuiltKeyMatches(PlainKey().base, [], [], c.maxKeyBytes);
    assert NamesOf(PlainKey()) == [] && KeyFor(PlainKey().base, [], []) == PlainKey();
    LongFresh(c);
    assert !ShortHeader(LongEntry(c, owner).headers[0], U32_MAX);
  }

  lemma LongFresh(c: Config)
    ensures Freshness(c, LongResponse(), None).Some?
  {
  }

  /** Every entry `prepare` accepts encodes and comes back from its record with the same key,
      status, headers, body, tags, policy, validators and charge, and only its age moved,
      exactly when its authority is not empty. */
  lemma EntryRoundTrip(c: Config, crc: Bytes -> U32, e: Entry, sequence: nat, access: nat, now: Duration,
                       wall: WallTime,
                       owner: nat, now': Duration, wall': WallTime)
    requires Bounded(c, e) && Framed(c) && sequence <= U64_MAX && access <= U64_MAX
    ensures Encode(crc, ToImage(e, sequence, access, now, wall)).Some?
    ensures var i := ToImage(e, sequence, access, now, wall);
            var record := Encode(crc, i).value;
            && (Decode(c, crc, record) == Some(i) <==> e.key.base.authority != [])
            && (e.key.base.authority == [] ==> Decode(c, crc, record) == None)
            && FromImage(i, owner, now', wall') == Moved(e, owner, now, wall, now', wall')
  {
    var i := ToImage(e, sequence, access, now, wall);
    EntryImageBounded(c, e, sequence, access, now, wall);
    AcceptedEncodes(c, e, sequence, access, now, wall);
    assert Encode(crc, i).Some?;
    assert CanonicalBase(c, e.key.base);
    RebuildsIffAuthority(c, e.key.base);
    hide Rebuilds, BoundedImage, Encodable, PutImage, Encode, Decode, Bounded;
    if e.key.base.authority != [] {
      RoundTrip(c, crc, i);
    } else {
      LostRecord(c, crc, i);
    }
  }

  lemma LostRecord(c: Config, crc: Bytes -> U32, i: Image)
    requires BoundedImage(c, i) && Encodable(i) && !Rebuilds(c, i.key.base) && |PutImage(i)| <= U64_MAX
    ensures Encode(crc, i).Some? && Decode(c, crc, Encode(crc, i).value) == None
  {
    HeaderParts(crc, i);
    ReadLostImage(c, i);
    hide ReadImage, PutImage, Encodable, BoundedImage;
  }

  lemma ReadLostImage(c: Config, i: Image)
    requires BoundedImage(c, i) && Encodable(i) && !Rebuilds(c, i.key.base)
    ensures ReadImage(c, PutImage(i), 2) == Fail
  {
    ShortKeyBase(c, i.key);
    hide Rebuilds, BoundedKey, BoundedHeaders, ProperHeaders, BoundedTags, KeyFits, HeadersFit, TagsFit, ValidatorsFit,
         BoundedValidator;
    hide PutKey, PutStamp, PutList, PutLongBytes, PutPolicy, PutValidators, Le, Charge;
    hide ReadKey, ReadStamp, ReadInt, ReadHeaders, ReadLongBytes, ReadTags, ReadPolicy, ReadValidators;
    var s2 := Le(i.status, 2) + (PutList(PutHeader, i.headers) + (PutLongBytes(i.body)
              + (PutList(PutBytes, i.tags) + (PutPolicy(i.policy) + (PutValidators(i.validators) + Le(i.charge, 8))))));
    ReadStampBack(StampOf(i), PutKey(i.key) + s2);
    ReadLostKey(c, i.key, s2);
  }

  lemma ReadLostKey(c: Config, k: CacheKey, rest: Bytes)
    requires !Rebuilds(c, k.base) && ShortBase(k.base, c.maxKeyBytes) && ShortBase(k.base, U32_MAX)
    ensures ReadKey(c, PutKey(k) + rest) == Fail
  {
    hide Rebuilds, ShortBase, PutBase, ReadBase, PutList, ReadList;
    assert PutKey(k) + rest == PutBase(k.base) + (PutList(PutVaryValue, k.vary) + rest);
    ReadLostBase(c, k.base, PutList(PutVaryValue, k.vary) + rest);
  }

  lemma ShortKeyBase(c: Config, k: CacheKey)
    requires BoundedKey(c, k) && KeyFits(k)
    ensures ShortBase(k.base, c.maxKeyBytes) && ShortBase(k.base, U32_MAX)
  {
  }

  lemma ReadLostBase(c: Config, b: BaseKey, rest: Bytes)
    requires !Rebuilds(c, b) && ShortBase(b, c.maxKeyBytes) && ShortBase(b, U32_MAX)
    ensures ReadBase(c, PutBase(b) + rest) == Fail
  {
    hide Rebuilds;
    var s4 := PutOptBytes(b.query) + rest;
    var s3 := PutBytes(b.path) + s4;
    var s2 := PutBytes(b.authority) + s3;
    var s1 := PutBytes(b.scheme) + s2;
    assert PutBase(b) + rest == PutBytes(b.verb) + s1;
    ReadBytesBack(b.verb, c.maxKeyBytes, s1);
    ReadBytesBack(b.scheme, c.maxKeyBytes, s2);
    ReadBytesBack(b.authority, c.maxKeyBytes, s3);
    ReadBytesBack(b.path, c.maxKeyBytes, s4);
    ReadOptBytesBack(b.query, c.maxKeyBytes, rest);
  }

  // ---------------------------------------------------------------- ages

  /** One stay on disk: the moment of the last encoding and the moment of the restart. */
  datatype Stay = Stay(encodedAt: Duration, encodedWall: WallTime, restartedAt: Duration, restartedWall: WallTime,
                       owner: nat)

  function AfterStay(e: Entry, stay: Stay): Entry {
    FromImage(ToImage(e, 0, 0, stay.encodedAt, stay.encodedWall), stay.owner, stay.restartedAt, stay.restartedWall)
  }

  function AfterStays(e: Entry, stays: seq<Stay>): Entry {
    if stays == [] then e else AfterStay(AfterStays(e, stays[..|stays| - 1]), stays[|stays| - 1])
  }

  /** Time spent resident before each encoding plus time spent on disk, in exact integers;
      a wall clock set back counts as no time. */
  function TimeAway(received: Duration, stays: seq<Stay>): nat {
    if stays == [] then 0
    else
      var front, last := stays[..|stays| - 1], stays[|stays| - 1];
      TimeAway(received, front)
      + Minus(last.encodedAt, LastReceived(received, front))
      + WallSince(last.restartedWall, last.encodedWall)
  }

  function LastReceived(received: Duration, stays: seq<Stay>): Duration {
    if stays == [] then received else stays[|stays| - 1].restartedAt
  }

  /** Through any number of touches and restarts the age is the original age plus all time
      that passed, capped at the largest duration. */
  lemma {:induction false} AgeContinues(e: Entry, stays: seq<Stay>, now: Duration)
    ensures var r := AfterStays(e, stays);
            && r.received == LastReceived(e.received, stays)
            && r.policy.initialAge == Min(e.policy.initialAge + TimeAway(e.received, stays), DURATION_MAX)
            && AgeAt(r, now) == Min(e.policy.initialAge + TimeAway(e.received, stays) + Minus(now, r.received),
                                    DURATION_MAX)
  {
    if stays != [] {
      var front, last := stays[..|stays| - 1], stays[|stays| - 1];
      AgeContinues(e, front, last.encodedAt);
    }
  }

  /** An age read after a restart is never below the age last written. */
  lemma AgeNeverDrops(e: Entry, stay: Stay, now: Duration)
    ensures AgeAt(AfterStay(e, stay), now) >= AgeAt(e, stay.encodedAt)
  {
  }
}
