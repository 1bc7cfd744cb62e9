/** Admission of a response (`Cache::prepare_inner` and `ResponsePolicy::evaluate`): what may
    enter the shared cache, and the bounds everything admitted satisfies. Directives and dates
    come parsed; `None` stands for malformed ones. */
module Prepare {
  import opened Prelude
  import opened Http
  import opened Keys
  import opened Policy
  import opened Entries
  import Identity

  datatype CacheResponse = CacheResponse(
    status: nat, headers: Headers, body: Bytes, timing: Timing, tags: seq<Bytes>,
    control: Option<CacheControl>, dates: Option<ResponseDates>)

  datatype PrepareError =
    | UnsupportedMethod
    | InvalidTiming
    | HeadersTooLarge
    | BodyTooLarge
    | InvalidMetadata
    | StatusRejected
    | NoStore
    | Private
    | SetCookie
    | HopByHop
    | Unauthorized
    | InvalidVaryField
    | VaryEverything
    | BadKey(key: KeyError)
    | BadTags(tags: TagError)
    | ObjectTooLarge

  const PROHIBITED: set<Bytes> := {
    Ascii("connection"), Ascii("keep-alive"), Ascii("proxy-authenticate"), Ascii("proxy-authorization"),
    Ascii("te"), Ascii("trailer"), Ascii("transfer-encoding"), Ascii("upgrade")}

  /** `prohibited_stored_header` for some field. */
  predicate HasHopByHop(headers: Headers) {
    exists i :: 0 <= i < |headers| && headers[i].name in PROHIBITED
  }

  predicate AllowsAuthorized(control: CacheControl) {
    control.public_ || control.sharedMaxAge.Some? || control.mustRevalidate
  }

  predicate EtagByte(b: Byte) {
    b == 0x21 || 0x23 <= b <= 0x7e || b >= 0x80
  }

  /** `valid_etag`. */
  predicate ValidEtag(value: Bytes) {
    var tag := if |value| >= 2 && value[0] == 87 && value[1] == 47 then value[2..] else value;
    |tag| >= 2 && tag[0] == QUOTE && tag[|tag| - 1] == QUOTE && forall i :: 0 < i < |tag| - 1 ==> EtagByte(tag[i])
  }

  /** `single_header`: `None` for a repeated field. */
  function Single(headers: Headers, name: Bytes): Option<Option<Bytes>> {
    var lines := ValuesOf(headers, name);
    if |lines| > 1 then None else if lines == [] then Some(None) else Some(Some(lines[0]))
  }

  /** `response_validators`. */
  function ResponseValidators(headers: Headers): Option<Validators> {
    var etag, modified := Single(headers, Ascii("etag")), Single(headers, Ascii("last-modified"));
    if etag.None? || (etag.value.Some? && !ValidEtag(etag.value.value)) || modified.None? then None
    else Some(Validators(etag.value, modified.value))
  }

  /** What a shared cache must not keep (section 3 of RFC 9111), in the order of the checks. */
  function Rejection(requestHeaders: Headers, response: CacheResponse, control: CacheControl): Option<PrepareError> {
    if response.status == 206 || response.status == 304 then Some(StatusRejected)
    else if control.noStore then Some(NoStore)
    else if control.private_ then Some(Private)
    else if HasHeader(response.headers, Ascii("set-cookie")) then Some(SetCookie)
    else if HasHopByHop(response.headers) then Some(HopByHop)
    else if HasHeader(requestHeaders, Ascii("authorization")) && !AllowsAuthorized(control) then Some(Unauthorized)
    else None
  }

  /** What a shared cache may keep (sections 3 and 3.5 of RFC 9111): no partial or unmodified
      response, nothing private, unstorable or personal, nothing that concerns one connection only,
      and an answer to an authorized request only with leave. */
  predicate MayKeep(requestHeaders: Headers, response: CacheResponse, control: CacheControl) {
    && response.status != 206 && response.status != 304 && !control.noStore && !control.private_
    && ValuesOf(response.headers, Ascii("set-cookie")) == []
    && ConcernsAll(response.headers)
    && (ValuesOf(requestHeaders, Ascii("authorization")) != [] ==>
          control.public_ || control.sharedMaxAge.Some? || control.mustRevalidate)
  }

  /** None of the fields that concern one connection only. */
  predicate ConcernsAll(headers: Headers) {
    && ValuesOf(headers, Ascii("connection")) == [] && ValuesOf(headers, Ascii("keep-alive")) == []
    && ValuesOf(headers, Ascii("proxy-authenticate")) == [] && ValuesOf(headers, Ascii("proxy-authorization")) == []
    && ValuesOf(headers, Ascii("te")) == [] && ValuesOf(headers, Ascii("trailer")) == []
    && ValuesOf(headers, Ascii("transfer-encoding")) == [] && ValuesOf(headers, Ascii("upgrade")) == []
  }

  lemma ConcernsAllIff(headers: Headers)
    ensures ConcernsAll(headers) <==> !HasHopByHop(headers)
  {
    hide ValuesOf, Ascii;
    HasHeaderIff(headers, Ascii("connection"));
    HasHeaderIff(headers, Ascii("keep-alive"));
    HasHeaderIff(headers, Ascii("proxy-authenticate"));
    HasHeaderIff(headers, Ascii("proxy-authorization"));
    HasHeaderIff(headers, Ascii("te"));
    HasHeaderIff(headers, Ascii("trailer"));
    HasHeaderIff(headers, Ascii("transfer-encoding"));
    HasHeaderIff(headers, Ascii("upgrade"));
  }

  /** A response is refused exactly if it may not be kept, and for a reason that holds. */
  lemma RejectionIff(requestHeaders: Headers, response: CacheResponse, control: CacheControl)
    ensures var refused := Rejection(requestHeaders, response, control);
            && (refused == None <==> MayKeep(requestHeaders, response, control))
            && (refused == Some(NoStore) ==> control.noStore) && (refused == Some(Private) ==> control.private_)
            && (refused == Some(SetCookie) ==> ValuesOf(response.headers, Ascii("set-cookie")) != [])
            && (refused == Some(HopByHop) ==> !ConcernsAll(response.headers))
            && (refused == Some(Unauthorized) ==> ValuesOf(requestHeaders, Ascii("authorization")) != [])
            && (refused.Some? ==>
                  refused.value in {StatusRejected, NoStore, Private, SetCookie, HopByHop, Unauthorized})
  {
    hide ValuesOf, HasHeader, Ascii, ConcernsAll, HasHopByHop;
    ConcernsAllIff(response.headers);
    HasHeaderIff(response.headers, Ascii("set-cookie"));
    HasHeaderIff(requestHeaders, Ascii("authorization"));
  }

  /** The validators are those of the response: at most one line of each, an entity tag between
      quotes and perhaps marked weak. */
  ghost predicate Validates(headers: Headers, v: Validators) {
    && ValuesOf(headers, Ascii("etag")) == (if v.etag.Some? then [v.etag.value] else [])
    && ValuesOf(headers, Ascii("last-modified")) == (if v.lastModified.Some? then [v.lastModified.value] else [])
    && (v.etag.Some? ==> IsEntityTag(v.etag.value))
  }

  ghost predicate IsEntityTag(value: Bytes) {
    exists mark, inner :: TagParts(value, mark, inner)
  }

  ghost predicate TagParts(value: Bytes, mark: Bytes, inner: Bytes) {
    && value == mark + ([QUOTE] + inner + [QUOTE]) && (mark == [] || mark == Ascii("W/"))
    && forall i :: 0 <= i < |inner| ==> inner[i] == 0x21 || 0x23 <= inner[i] <= 0x7e || inner[i] >= 0x80
  }

  lemma EntityTagIff(value: Bytes)
    ensures ValidEtag(value) <==> IsEntityTag(value)
  {
    hide TagParts;
    if ValidEtag(value) {
      var mark, inner := TagHasParts(value);
    }
    if IsEntityTag(value) {
      var mark, inner :| TagParts(value, mark, inner);
      PartsMakeTag(value, mark, inner);
    }
  }

  lemma TagHasParts(value: Bytes) returns (mark: Bytes, inner: Bytes)
    requires ValidEtag(value)
    ensures TagParts(value, mark, inner)
  {
    mark := if |value| >= 2 && value[0] == 87 && value[1] == 47 then Ascii("W/") else [];
    var tag := value[|mark|..];
    inner := tag[1..|tag| - 1];
    assert tag == [QUOTE] + inner + [QUOTE];
    assert value[..|mark|] == mark && value == value[..|mark|] + tag;
    assert forall i :: 0 <= i < |inner| ==> inner[i] == tag[i + 1] && EtagByte(tag[i + 1]);
  }

  lemma PartsMakeTag(value: Bytes, mark: Bytes, inner: Bytes)
    requires TagParts(value, mark, inner)
    ensures ValidEtag(value)
  {
    var tag := [QUOTE] + inner + [QUOTE];
    assert value[|mark|..] == tag && tag[0] == QUOTE && tag[|tag| - 1] == QUOTE;
    forall i | 0 < i < |tag| - 1
      ensures EtagByte(tag[i])
    {
      assert tag[i] == inner[i - 1];
    }
    if mark == [] {
      assert value == tag && value[0] == QUOTE;
    } else {
      assert value[0] == 87 && value[1] == 47;
    }
  }

  /** There are validators exactly if the fields allow some, and then these. */
  lemma ValidatorsIff(headers: Headers, v: Validators)
    ensures ResponseValidators(headers) == Some(v) <==> Validates(headers, v)
  {
    hide ValuesOf, Ascii, ValidEtag, IsEntityTag;
    if v.etag.Some? {
      EntityTagIff(v.etag.value);
    }
  }

  /** The items of the response's `Vary` field lines. */
  function Varied(response: CacheResponse): seq<Bytes> {
    Identity.VaryItems(ValuesOf(response.headers, Ascii("vary")))
  }

  /** The first reason not to keep the response, if there is one. */
  ghost function ResponseDefect(c: Config, requestHeaders: Headers, response: CacheResponse,
                                timeline: Option<Timeline>): Option<PrepareError>
  {
    var items := Varied(response);
    if response.control.None? then Some(InvalidMetadata)
    else if Rejection(requestHeaders, response, response.control.value).Some? then
      Rejection(requestHeaders, response, response.control.value)
    else if Identity.StarReached(items, c.maxVaryFields, c.maxHeaderBytes) then Some(VaryEverything)
    else if !Identity.VaryFits(items, c.maxVaryFields, c.maxHeaderBytes) then Some(InvalidVaryField)
    else if response.dates.None? then Some(InvalidMetadata)
    else if Freshness(c, response, timeline).None? then Some(StatusRejected)
    else if ResponseValidators(response.headers).None? then Some(InvalidMetadata)
    else None
  }

  /** A response a shared cache may keep, with well-formed metadata. */
  ghost predicate Storable(c: Config, requestHeaders: Headers, response: CacheResponse, timeline: Option<Timeline>) {
    && response.control.Some? && response.dates.Some?
    && Rejection(requestHeaders, response, response.control.value) == None
    && Identity.VaryFits(Varied(response), c.maxVaryFields, c.maxHeaderBytes)
    && Freshness(c, response, timeline).Some?
    && ResponseValidators(response.headers).Some?
  }

  function Freshness(c: Config, response: CacheResponse, timeline: Option<Timeline>): Option<ResponsePolicy>
    requires response.control.Some? && response.dates.Some?
  {
    EvaluateFreshness(response.status, response.control.value, response.dates.value, response.timing, c.maxHeuristic,
                      timeline)
  }

  /** These are the names listed by `Vary`, sorted. */
  ghost predicate Lists(items: seq<Bytes>, names: seq<Bytes>)
    requires Identity.AllNames(items)
  {
    Identity.StrictlySorted(names) && forall n :: n in names <==> n in Identity.NamesIn(items)
  }

  /** The entry stands for this exchange: its key is the one the request has under the
      response's `Vary`, its policy follows from the directives, dates and timing. */
  ghost predicate Stands(c: Config, owner: nat, request: KeyInput, response: CacheResponse, timeline: Option<Timeline>,
                         e: Entry)
    requires Storable(c, request.headers, response, timeline)
  {
    && e.owner == owner && e.status == response.status && e.headers == response.headers && e.body == response.body
    && e.received == response.timing.responseReceived
    && e.tags == FirstOccurrences(response.tags)
    && Some(e.policy) == Freshness(c, response, timeline)
    && Some(e.validators) == ResponseValidators(response.headers)
    && Identity.NewBaseKey(request, c.maxKeyBytes) == Ok(e.key.base)
    && MatchesRequest(e.key, e.key.base, request.headers, c.maxKeyBytes)
    && Lists(Varied(response), NamesOf(e.key))
  }

  /** An entry that may be admitted for this exchange. */
  ghost predicate Admits(c: Config, owner: nat, request: KeyInput, response: CacheResponse, timeline: Option<Timeline>,
                         e: Entry) {
    && request.verb == GET && response.timing.requestStarted <= response.timing.responseReceived
    && BoundedHeaders(c, request.headers) && |response.tags| <= c.maxTagsPerEntry
    && Storable(c, request.headers, response, timeline)
    && Stands(c, owner, request, response, timeline, e) && Bounded(c, e)
  }

  /** An exchange with the origin: what was asked, what came back, and the timeline in force. A
      validated response counts with its merged headers. */
  datatype Exchange = Exchange(owner: nat, request: KeyInput, response: CacheResponse, timeline: Option<Timeline>)

  /** The entry `prepare` makes of this exchange. */
  ghost predicate MadeFrom(c: Config, x: Exchange, e: Entry) {
    Accepted(x.timeline) && Admits(c, x.owner, x.request, x.response, x.timeline, e)
  }

  /** The response could be kept, and what its directives, its dates and the timeline say shows
      in the policy. */
  ghost predicate Honours(c: Config, x: Exchange, p: ResponsePolicy) {
    && x.response.control.Some? && x.response.dates.Some?
    && var control, dates := x.response.control.value, x.response.dates.value;
    && MayKeep(x.request.headers, x.response, control)
    && StatusKept(x.response.status, control, dates, x.timeline)
    && Reflects(x.response.status, control, dates, x.response.timing, c.maxHeuristic, x.timeline, p)
    && CanonicalWindows(p)
  }

  /** The age of the response by the calculation of section 4.2.3 of RFC 9111. */
  function AgeOf(x: Exchange, now: Duration): Duration
    requires x.response.dates.Some?
  {
    CurrentAge(x.response.dates.value.date, x.response.dates.value.age, x.response.timing, now)
  }

  /** An entry made from an exchange honours it, and its age is the response's. */
  lemma MadeHonours(c: Config, x: Exchange, e: Entry)
    requires MadeFrom(c, x, e)
    ensures Honours(c, x, e.policy) && forall now :: AgeAt(e, now) == AgeOf(x, now)
  {
    hide Bounded, BoundedHeaders, Identity.NewBaseKey, MatchesRequest, Lists, Varied, Rejection, ResponseValidators,
         CurrentAge, EvaluateFreshness, Reflects, StatusKept, MayKeep, CanonicalWindows;
    RejectionIff(x.request.headers, x.response, x.response.control.value);
    EvaluatedPolicy(x.response.status, x.response.control.value, x.response.dates.value, x.response.timing,
                    c.maxHeuristic, x.timeline);
  }

  /** The entry holds the response of the exchange, under the key of its request. */
  ghost predicate Holds(c: Config, x: Exchange, e: Entry) {
    && Honours(c, x, e.policy)
    && e.status == x.response.status && e.headers == x.response.headers && e.body == x.response.body
    && Validates(x.response.headers, e.validators)
    && (forall tag :: tag in e.tags <==> tag in x.response.tags)
    && Identity.NewBaseKey(x.request, c.maxKeyBytes) == Ok(e.key.base)
    && MatchesRequest(e.key, e.key.base, x.request.headers, c.maxKeyBytes)
    && KeyedBy(ValuesOf(x.response.headers, Ascii("vary")), e.key)
  }

  /** The key has a value for each field that the lines of `Vary` list, and they do not list all. */
  ghost predicate KeyedBy(lines: seq<Bytes>, key: CacheKey) {
    && !Identity.ListedIn(lines, Ascii("*"))
    && forall name :: IsName(name) && Identity.ListedIn(lines, name) ==> name in NamesOf(key)
  }

  lemma MadeHolds(c: Config, x: Exchange, e: Entry)
    requires MadeFrom(c, x, e)
    ensures Holds(c, x, e)
  {
    hide Bounded, BoundedHeaders, Identity.NewBaseKey, MatchesRequest, Lists, Rejection, ResponseValidators,
         Validates, EvaluateFreshness, Honours, KeyedBy, ValuesOf, Identity.VaryFits, Identity.VaryItems;
    MadeHonours(c, x, e);
    ValidatorsIff(x.response.headers, e.validators);
    ListedIsKeyed(ValuesOf(x.response.headers, Ascii("vary")), e.key, c.maxVaryFields, c.maxHeaderBytes);
  }

  lemma ListedIsKeyed(lines: seq<Bytes>, key: CacheKey, maxFields: nat, maxBytes: nat)
    requires Identity.VaryFits(Identity.VaryItems(lines), maxFields, maxBytes)
    requires Lists(Identity.VaryItems(lines), NamesOf(key))
    ensures KeyedBy(lines, key)
  {
    hide Identity.ListedIn, Identity.VaryItems, Identity.NamesIn, Identity.ItemsLen, Identity.StrictlySorted, NamesOf;
    forall name | IsName(name) && Identity.ListedIn(lines, name)
      ensures name in NamesOf(key)
    {
      Identity.NamesInIff(lines, name);
    }
    Identity.StarIff(lines);
  }

  /** The first defect of an exchange that gives no entry. */
  ghost predicate FailsWith(c: Config, request: KeyInput, response: CacheResponse, timeline: Option<Timeline>,
                            error: PrepareError) {
    var defect := ResponseDefect(c, request.headers, response, timeline);
    if request.verb != GET then error == UnsupportedMethod
    else if response.timing.responseReceived < response.timing.requestStarted then error == InvalidTiming
    else if !BoundedHeaders(c, request.headers) || !BoundedHeaders(c, response.headers) then error == HeadersTooLarge
    else if |response.body| > c.maxBodyBytes then error == BodyTooLarge
    else if defect.Some? then error == defect.value
    else
      match Identity.NewBaseKey(request, c.maxKeyBytes)
      case Err(wrong) => error == BadKey(wrong)
      case Ok(base) =>
        exists names :: Identity.AllNames(Varied(response)) && Lists(Varied(response), names)
                        && KeyFailsWith(c, KeyFor(base, request.headers, names), response, error)
  }

  ghost predicate KeyFailsWith(c: Config, key: CacheKey, response: CacheResponse, error: PrepareError) {
    if KeyLen(key) > c.maxKeyBytes then error == BadKey(TooLarge)
    else if |response.tags| > c.maxTagsPerEntry then error == BadTags(TooManyTags)
    else if exists i :: 0 <= i < |response.tags| && !ValidTag(response.tags[i], c.maxTagBytes) then
      error == BadTags(InvalidTag)
    else
      && error == ObjectTooLarge
      && Charge(key, response.headers, |response.body|, FirstOccurrences(response.tags))
         > Min(c.maxObjectBytes, c.maxTotalBytes)
  }

  /** The defects that need no key, in the order of the checks. */
  lemma FailsBeforeKey(c: Config, request: KeyInput, response: CacheResponse, timeline: Option<Timeline>)
    ensures request.verb != GET ==> FailsWith(c, request, response, timeline, UnsupportedMethod)
    ensures request.verb == GET ==>
              var bounded := BoundedHeaders(c, request.headers) && BoundedHeaders(c, response.headers);
              var defect := ResponseDefect(c, request.headers, response, timeline);
              if response.timing.responseReceived < response.timing.requestStarted then
                FailsWith(c, request, response, timeline, InvalidTiming)
              else if !bounded then FailsWith(c, request, response, timeline, HeadersTooLarge)
              else if |response.body| > c.maxBodyBytes then FailsWith(c, request, response, timeline, BodyTooLarge)
              else if defect.Some? then FailsWith(c, request, response, timeline, defect.value)
              else
                var key := Identity.NewBaseKey(request, c.maxKeyBytes);
                key.Err? ==> FailsWith(c, request, response, timeline, BadKey(key.error))
  {
    hide BoundedHeaders, ResponseDefect, Identity.NewBaseKey;
  }

  /** The defects found when the key is known. */
  lemma FailsAtKey(c: Config, request: KeyInput, response: CacheResponse, timeline: Option<Timeline>, base: BaseKey,
                   names: seq<Bytes>, error: PrepareError)
    requires request.verb == GET && response.timing.requestStarted <= response.timing.responseReceived
    requires BoundedHeaders(c, request.headers) && BoundedHeaders(c, response.headers)
    requires |response.body| <= c.maxBodyBytes && ResponseDefect(c, request.headers, response, timeline) == None
    requires Identity.NewBaseKey(request, c.maxKeyBytes) == Ok(base)
    requires Identity.AllNames(Varied(response)) && Lists(Varied(response), names)
    requires KeyFailsWith(c, KeyFor(base, request.headers, names), response, error)
    ensures FailsWith(c, request, response, timeline, error)
  {
    hide BoundedHeaders, ResponseDefect, Identity.NewBaseKey, KeyFailsWith, Lists, Varied, Identity.AllNames;
  }

  lemma KeyFails(c: Config, key: CacheKey, response: CacheResponse)
    ensures KeyLen(key) > c.maxKeyBytes ==> KeyFailsWith(c, key, response, BadKey(TooLarge))
    ensures var many := |response.tags| > c.maxTagsPerEntry;
            var bad := exists i :: 0 <= i < |response.tags| && !ValidTag(response.tags[i], c.maxTagBytes);
            KeyLen(key) <= c.maxKeyBytes ==>
              if many then KeyFailsWith(c, key, response, BadTags(TooManyTags))
              else if bad then KeyFailsWith(c, key, response, BadTags(InvalidTag))
              else
                var charge := Charge(key, response.headers, |response.body|, FirstOccurrences(response.tags));
                charge > c.maxObjectBytes || charge > c.maxTotalBytes ==>
                  KeyFailsWith(c, key, response, ObjectTooLarge)
  {
    hide KeyLen, Charge, ValidTag, FirstOccurrences;
  }

  /** `prepare_inner` returns the one entry that may be admitted, or else the first defect. */
  method PrepareInner(c: Config, owner: nat, request: KeyInput, response: CacheResponse, timeline: Option<Timeline>)
    returns (r: Result<Entry, PrepareError>)
    requires ProperHeaders(response.headers) && 100 <= response.status <= 999 && c.maxTotalBytes <= USIZE_MAX
    ensures r.Ok? ==> Admits(c, owner, request, response, timeline, r.value)
    ensures forall e :: Admits(c, owner, request, response, timeline, e) ==> r == Ok(e)
    ensures r.Err? ==> FailsWith(c, request, response, timeline, r.error)
  {
    hide *;
    FailsBeforeKey(c, request, response, timeline);
    if request.verb != GET {
      AdmitsOnly(c, owner, request, response, timeline);
      return Err(UnsupportedMethod);
    }
    if response.timing.responseReceived < response.timing.requestStarted {
      AdmitsOnly(c, owner, request, response, timeline);
      return Err(InvalidTiming);
    }
    if !BoundedHeaders(c, request.headers) || !BoundedHeaders(c, response.headers) {
      AdmitsOnly(c, owner, request, response, timeline);
      return Err(HeadersTooLarge);
    }
    if |response.body| > c.maxBodyBytes {
      AdmitsOnly(c, owner, request, response, timeline);
      return Err(BodyTooLarge);
    }
    var policy, vary, validators := EvaluateResponse(c, request.headers, response, timeline);
    if policy.Err? {
      AdmitsOnly(c, owner, request, response, timeline);
      return Err(policy.error);
    }
    var base := Identity.NewBaseKey(request, c.maxKeyBytes);
    if base.Err? {
      AdmitsOnly(c, owner, request, response, timeline);
      return Err(BadKey(base.error));
    }
    var key := NewKey(base.value, request.headers, vary, c.maxKeyBytes);
    AdmitsKey(c, owner, request, response, timeline, base.value, vary.names);
    KeyFails(c, KeyFor(base.value, request.headers, vary.names), response);
    if key.Err? {
      FailsAtKey(c, request, response, timeline, base.value, vary.names, BadKey(key.error));
      return Err(BadKey(key.error));
    }
    var tags := ParseTags(c, response.tags);
    AdmitsTags(c, owner, request, response, timeline);
    if tags.Err? {
      FailsAtKey(c, request, response, timeline, base.value, vary.names, BadTags(tags.error));
      return Err(BadTags(tags.error));
    }
    var charge := ObjectCharge(key.value, response.headers, |response.body|, tags.value);
    if charge.None? || charge.value > c.maxObjectBytes || charge.value > c.maxTotalBytes {
      AdmitsOnly(c, owner, request, response, timeline);
      FailsAtKey(c, request, response, timeline, base.value, vary.names, ObjectTooLarge);
      return Err(ObjectTooLarge);
    }
    r := Ok(Entry(owner, key.value, response.status, response.headers, response.body, tags.value, policy.value,
                  validators,
                  response.timing.responseReceived, charge.value));
    BuiltAdmits(c, owner, request, response, timeline, base.value, vary.names, r.value);
    AdmitsOnly(c, owner, request, response, timeline);
  }

  /** `ResponsePolicy::evaluate`. */
  method EvaluateResponse(c: Config, requestHeaders: Headers, response: CacheResponse, timeline: Option<Timeline>)
    returns (r: Result<ResponsePolicy, PrepareError>, vary: Vary, validators: Validators)
    ensures r.Ok? <==> Storable(c, requestHeaders, response, timeline)
    ensures ResponseDefect(c, requestHeaders, response, timeline) == if r.Ok? then None else Some(r.error)
    ensures r.Ok? ==>
              && Freshness(c, response, timeline) == Some(r.value)
              && ResponseValidators(response.headers) == Some(validators)
              && vary.Names? && Identity.AllNames(Varied(response)) && Lists(Varied(response), vary.names)
              && |vary.names| <= c.maxVaryFields && Identity.ShortNames(vary.names, c.maxHeaderBytes)
  {
    hide EvaluateFreshness, ResponseValidators, Identity.VaryItems, ValuesOf;
    vary, validators := Any, Validators(None, None);
    if response.control.None? {
      return Err(InvalidMetadata), vary, validators;
    }
    var control := response.control.value;
    var rejection := Rejection(requestHeaders, response, control);
    if rejection.Some? {
      return Err(rejection.value), vary, validators;
    }
    var listed := Identity.ParseVary(response.headers, Ascii("vary"), c.maxVaryFields, c.maxHeaderBytes);
    if listed.Err? {
      return Err(InvalidVaryField), vary, validators;
    }
    if listed.value.Any? {
      return Err(VaryEverything), vary, validators;
    }
    if response.dates.None? {
      return Err(InvalidMetadata), vary, validators;
    }
    var policy := Freshness(c, response, timeline);
    if policy.None? {
      return Err(StatusRejected), vary, validators;
    }
    var found := ResponseValidators(response.headers);
    if found.None? {
      return Err(InvalidMetadata), vary, validators;
    }
    r, vary, validators := Ok(policy.value), listed.value, found.value;
  }

  /** What an admitted entry is made of, and what its admission demands of the exchange. */
  lemma AdmitsOnly(c: Config, owner: nat, request: KeyInput, response: CacheResponse, timeline: Option<Timeline>)
    ensures forall e :: Admits(c, owner, request, response, timeline, e) ==>
              && request.verb == GET && response.timing.requestStarted <= response.timing.responseReceived
              && BoundedHeaders(c, request.headers) && BoundedHeaders(c, response.headers)
              && |response.body| <= c.maxBodyBytes
              && Storable(c, request.headers, response, timeline)
              && Identity.NewBaseKey(request, c.maxKeyBytes) == Ok(e.key.base)
              && e == Entry(owner, e.key, response.status, response.headers, response.body,
                            FirstOccurrences(response.tags),
                            Freshness(c, response, timeline).value, ResponseValidators(response.headers).value,
                            response.timing.responseReceived, Charge(e.key, response.headers, |response.body|, e.tags))
              && e.charge <= c.maxObjectBytes && e.charge <= c.maxTotalBytes
  {
    hide BoundedHeaders, Identity.NewBaseKey, FirstOccurrences, Freshness, ResponseValidators, Charge, Rejection,
         Identity.VaryFits, MatchesRequest, Lists, Varied, BoundedKey, ProperHeaders, BoundedTags,
         BoundedValidator, NamesOf;
    forall e | Admits(c, owner, request, response, timeline, e)
      ensures Storable(c, request.headers, response, timeline)
      ensures Freshness(c, response, timeline).Some? && ResponseValidators(response.headers).Some?
    {
    }
  }

  /** The key of an admitted entry is the request's key under the sorted `Vary` names. */
  lemma AdmitsKey(c: Config, owner: nat, request: KeyInput, response: CacheResponse, timeline: Option<Timeline>,
                  base: BaseKey, names: seq<Bytes>)
    requires Storable(c, request.headers, response, timeline) && Lists(Varied(response), names)
    requires Identity.NewBaseKey(request, c.maxKeyBytes) == Ok(base)
    ensures forall e :: Admits(c, owner, request, response, timeline, e) ==>
              e.key == KeyFor(base, request.headers, names) && KeyLen(e.key) <= c.maxKeyBytes
  {
    hide Identity.NewBaseKey, Storable, Varied, Bounded, KeyLen, NamesOf, VaryValuesFor, Identity.StrictlySorted;
    forall e | Admits(c, owner, request, response, timeline, e)
      ensures e.key == KeyFor(base, request.headers, names) && KeyLen(e.key) <= c.maxKeyBytes
    {
      Identity.SortedUnique(names, NamesOf(e.key));
    }
  }

  lemma AdmitsTags(c: Config, owner: nat, request: KeyInput, response: CacheResponse, timeline: Option<Timeline>)
    ensures forall e :: Admits(c, owner, request, response, timeline, e) ==>
              |response.tags| <= c.maxTagsPerEntry && forall i :: 0 <= i < |response.tags| ==>
                ValidTag(response.tags[i], c.maxTagBytes)
  {
    hide Storable, BoundedHeaders, BoundedKey, ProperHeaders, BoundedValidator, Charge, ValidTag, Lists, MatchesRequest,
         Identity.NewBaseKey, Freshness, ResponseValidators, Varied, NamesOf;
    forall e, i | Admits(c, owner, request, response, timeline, e) && 0 <= i < |response.tags|
      ensures ValidTag(response.tags[i], c.maxTagBytes)
    {
      assert response.tags[i] in e.tags;
    }
  }

  /** What the checks build is admitted. */
  lemma BuiltAdmits(c: Config, owner: nat, request: KeyInput, response: CacheResponse, timeline: Option<Timeline>,
                    base: BaseKey, names: seq<Bytes>, e: Entry)
    requires request.verb == GET && response.timing.requestStarted <= response.timing.responseReceived
    requires ProperHeaders(response.headers) && 100 <= response.status <= 999
    requires BoundedHeaders(c, request.headers) && BoundedHeaders(c, response.headers)
             && |response.body| <= c.maxBodyBytes
    requires Storable(c, request.headers, response, timeline)
    requires Lists(Varied(response), names) && |names| <= c.maxVaryFields
             && Identity.ShortNames(names, c.maxHeaderBytes)
    requires Identity.NewBaseKey(request, c.maxKeyBytes) == Ok(base)
    requires e.key == KeyFor(base, request.headers, names) && KeyLen(e.key) <= c.maxKeyBytes
    requires |response.tags| <= c.maxTagsPerEntry && BoundedTags(c, e.tags) && e.tags == FirstOccurrences(response.tags)
    requires Some(e.policy) == Freshness(c, response, timeline)
             && Some(e.validators) == ResponseValidators(response.headers)
    requires e.charge == Charge(e.key, response.headers, |response.body|, e.tags)
    requires e.charge <= c.maxObjectBytes && e.charge <= c.maxTotalBytes
    requires e == Entry(owner, e.key, response.status, response.headers, response.body, e.tags, e.policy, e.validators,
                        response.timing.responseReceived, e.charge)
    ensures Admits(c, owner, request, response, timeline, e)
  {
    hide BoundedHeaders, Storable, Identity.NewBaseKey, FirstOccurrences, Freshness, ResponseValidators, Charge,
         MatchesRequest, Varied, BoundedKey, ProperHeaders, BoundedTags, BoundedValidator, KeyLen, Identity.ShortNames,
         ValuesOf, NormalizeLines, Identity.StrictlySorted;
    KeyIsBounded(c, request, base, names, e.key);
    ValidatorsBounded(c, response.headers);
    assert NamesOf(e.key) == names;
  }

  /** The key of an admitted entry meets every bound a record decoder will impose. */
  lemma KeyIsBounded(c: Config, request: KeyInput, base: BaseKey, names: seq<Bytes>, key: CacheKey)
    requires request.verb == GET && Identity.NewBaseKey(request, c.maxKeyBytes) == Ok(base)
    requires Identity.StrictlySorted(names) && |names| <= c.maxVaryFields
             && Identity.ShortNames(names, c.maxHeaderBytes)
    requires key == KeyFor(base, request.headers, names) && KeyLen(key) <= c.maxKeyBytes
    ensures BoundedKey(c, key) && key.base == base && MatchesRequest(key, base, request.headers, c.maxKeyBytes)
  {
    hide Identity.NewBaseKey, MatchesRequest, VaryValueFor, Less, IsName, CanonicalBase, BaseLen;
    BaseIsCanonical(c, request, base);
    BuiltKeyMatches(base, request.headers, names, c.maxKeyBytes);
    VaryIsBounded(c, request.headers, names);
  }

  lemma BaseIsCanonical(c: Config, request: KeyInput, base: BaseKey)
    requires request.verb == GET && Identity.NewBaseKey(request, c.maxKeyBytes) == Ok(base)
    ensures CanonicalBase(c, base)
  {
    Identity.BaseKeyIdempotent(request, c.maxKeyBytes);
    BaseParts(request, base, c.maxKeyBytes);
    hide Identity.NewBaseKey, BaseLen;
  }

  lemma BaseParts(request: KeyInput, base: BaseKey, maxBytes: nat)
    requires Identity.NewBaseKey(request, maxBytes) == Ok(base)
    ensures base.verb == (if request.verb == HEAD then GET else request.verb) && BaseLen(base) <= maxBytes
  {
    hide Identity.CanonicalAuthority, Identity.ValidPath, Identity.ValidQuery, Identity.ValidScheme, LowerAll;
  }

  lemma VaryIsBounded(c: Config, headers: Headers, names: seq<Bytes>)
    requires Identity.StrictlySorted(names) && |names| <= c.maxVaryFields
             && Identity.ShortNames(names, c.maxHeaderBytes)
    ensures BoundedVary(c, VaryValuesFor(headers, names))
  {
    hide Less, IsName, ValuesOf, NormalizeLines;
    var vary := VaryValuesFor(headers, names);
    forall i | 0 <= i < |vary|
      ensures vary[i].name == names[i] && names[i] in names
    {
    }
  }

  lemma {:induction false} ValueIsHeader(headers: Headers, name: Bytes, j: nat)
    requires j < |ValuesOf(headers, name)|
    ensures exists i :: 0 <= i < |headers| && headers[i].value == ValuesOf(headers, name)[j]
  {
    if headers[0].name == name && j == 0 {
      assert headers[0].value == ValuesOf(headers, name)[0];
    } else {
      var k := if headers[0].name == name then j - 1 else j;
      ValueIsHeader(headers[1..], name, k);
      var i :| 0 <= i < |headers[1..]| && headers[1..][i].value == ValuesOf(headers[1..], name)[k];
      assert headers[i + 1].value == ValuesOf(headers, name)[j];
    }
  }

  lemma SingleIsBounded(c: Config, headers: Headers, name: Bytes)
    requires BoundedHeaders(c, headers) && ProperHeaders(headers)
    ensures Single(headers, name).Some? ==> BoundedValidator(c, Single(headers, name).value)
  {
    var lines := ValuesOf(headers, name);
    if |lines| == 1 {
      ValueIsHeader(headers, name, 0);
      var i :| 0 <= i < |headers| && headers[i].value == lines[0];
      HeaderBytesBoundsEach(headers, i);
    }
  }

  lemma ValidatorsBounded(c: Config, headers: Headers)
    requires BoundedHeaders(c, headers) && ProperHeaders(headers)
    ensures ResponseValidators(headers).Some? ==>
              BoundedValidator(c, ResponseValidators(headers).value.etag)
              && BoundedValidator(c, ResponseValidators(headers).value.lastModified)
  {
    SingleIsBounded(c, headers, Ascii("etag"));
    SingleIsBounded(c, headers, Ascii("last-modified"));
  }
}
