/** Lookups in terms of the request: which requests the cache leaves alone, which entries answer
    the others, and what a request's own fields and directives demand of the answer. */
module Replies {
  import opened Prelude
  import opened Http
  import opened Keys
  import opened Policy
  import opened Entries
  import opened Prepare
  import opened CacheModel
  import opened CacheRuns
  import opened Lookups
  import Identity
  import S = Shelf

  // ---------------------------------------------------------------- requests and exchanges

  /** What came back from this exchange answers the request as well: it asks for the same thing,
      carries the same value of every field that the response varies by, and comes with
      authorization only if the response allows that. */
  ghost predicate Applies(x: Exchange, input: KeyInput) {
    && Identity.SameTarget(x.request, input)
    && SameVariant(ValuesOf(x.response.headers, Ascii("vary")), x.request.headers, input.headers)
    && (ValuesOf(input.headers, Ascii("authorization")) != [] ==>
          x.response.control.Some?
          && var control := x.response.control.value;
             control.public_ || control.sharedMaxAge.Some? || control.mustRevalidate)
  }

  ghost predicate SameVariant(lines: seq<Bytes>, a: Headers, b: Headers) {
    && !Identity.ListedIn(lines, Ascii("*"))
    && forall name :: IsName(name) && Identity.ListedIn(lines, name) ==> SameField(a, b, name)
  }

  lemma HeldApplies(c: Config, x: Exchange, slots: Slots, k: CacheKey, input: KeyInput, base: BaseKey)
    requires k in slots && Holds(c, x, slots[k].value) && slots[k].value.key == k
    requires Identity.NewBaseKey(input, c.maxKeyBytes) == Ok(base) && Candidate(c, slots, base, input.headers, k)
    ensures Applies(x, input)
  {
    hide Identity.NewBaseKey, MatchesRequest, Identity.SameTarget, Validates, ValuesOf, LastsFor, SameVariant, KeyedBy,
         HasHeader;
    Identity.SameBaseIff(x.request, input, c.maxKeyBytes);
    MatchesSame(k, base, input.headers, c.maxKeyBytes);
    HeldVariant(ValuesOf(x.response.headers, Ascii("vary")), k, base, x.request.headers, input.headers, c.maxKeyBytes);
    HasHeaderIff(input.headers, Ascii("authorization"));
  }

  lemma MatchesSame(k: CacheKey, base: BaseKey, headers: Headers, maxBytes: nat)
    requires MatchesRequest(k, base, headers, maxBytes)
    ensures k.base == base
  {
  }

  lemma HeldVariant(lines: seq<Bytes>, k: CacheKey, base: BaseKey, a: Headers, b: Headers, maxBytes: nat)
    requires KeyedBy(lines, k) && MatchesRequest(k, base, a, maxBytes) && MatchesRequest(k, base, b, maxBytes)
    ensures SameVariant(lines, a, b)
  {
    hide MatchesRequest, SameField, Identity.ListedIn, IsName;
    MatchesBothIff(k, base, a, base, b, maxBytes);
    forall name | IsName(name) && Identity.ListedIn(lines, name)
      ensures SameField(a, b, name)
    {
      var i :| 0 <= i < |NamesOf(k)| && NamesOf(k)[i] == name;
      assert SameField(a, b, k.vary[i].name);
    }
  }

  /** The age of an answer given without asking the origin is what the request's own max-age,
      min-fresh and max-stale allow, and the request did not want the origin asked. */
  ghost predicate Obeys(request: Request, p: ResponsePolicy, v: Verdict, age: Duration) {
    && request.control.Some?
    && var control := request.control.value;
    && !GoesAround(request.input.verb, request.input.headers, control) && !AsksOrigin(request.input.headers, control)
    && (control.maxAge.Some? ==> age <= control.maxAge.value)
    && (control.minFresh.Some? && 0 < control.minFresh.value ==>
          age + control.minFresh.value <= p.lifetime || p.lifetime == DURATION_MAX)
    && (v.Fresh? ==> age <= p.lifetime)
    && (v.Stale? ==>
          control.maxStale.Some?
          && (control.maxStale.value.Some? ==> age <= p.lifetime + control.maxStale.value.value))
    && (v.StaleWhileRevalidate? ==> age <= p.lifetime + p.staleWhileRevalidate)
    && !v.MustRevalidate?
  }

  lemma ServedObeys(c: Config, request: Request, p: ResponsePolicy, v: Verdict, age: Duration)
    requires Evaluate(c, request).AskFor? && MayServe(Evaluate(c, request).policy, p, v, age)
    ensures Obeys(request, p, v, age)
  {
    hide GoesAround, AsksOrigin, EvaluateRequest, Identity.NewBaseKey;
    RequestModes(request.input.verb, request.input.headers, request.control.value);
  }

  // ---------------------------------------------------------------- what comes of a lookup

  /** The header section is larger than the cache takes. */
  predicate TooLarge(c: Config, headers: Headers) {
    |headers| > c.maxHeaderFields || HeaderBytes(headers) > c.maxHeaderBytes
  }

  /** The cache has something to say to the request. */
  predicate Concerns(c: Config, request: Request) {
    && !TooLarge(c, request.input.headers) && request.control.Some?
    && !GoesAround(request.input.verb, request.input.headers, request.control.value)
  }

  lemma AskOf(c: Config, request: Request)
    ensures var ask := Evaluate(c, request);
            && (ask.SkipCache? <==>
                  || TooLarge(c, request.input.headers)
                  || (request.control.Some?
                      && GoesAround(request.input.verb, request.input.headers, request.control.value)))
            && (ask.BadRequest? <==> !TooLarge(c, request.input.headers) && request.control.None?)
            && (Concerns(c, request) ==>
                  match Identity.NewBaseKey(request.input, c.maxKeyBytes)
                  case Err(error) => ask == Ask.BadKey(error)
                  case Ok(base) => ask.AskFor? && ask.base == base && ask.policy.mode != Bypass
                                   && ask.policy.onlyIfCached == request.control.value.onlyIfCached)
  {
    hide GoesAround, AsksOrigin, EvaluateRequest, Identity.NewBaseKey;
    if request.control.Some? {
      RequestModes(request.input.verb, request.input.headers, request.control.value);
    }
  }

  /** The resident entry under this key may answer the request. */
  predicate MayAnswer(c: Config, slots: Slots, input: KeyInput, k: CacheKey) {
    && k in slots && Identity.NewBaseKey(input, c.maxKeyBytes) == Ok(k.base)
    && MatchesRequest(k, k.base, input.headers, c.maxKeyBytes)
    && (ValuesOf(input.headers, Ascii("authorization")) != [] ==> slots[k].value.policy.allowsAuthorizedReuse)
  }

  /** The entry is past the time the timeline keeps it. */
  predicate PastKeep(e: Entry, now: Duration) {
    e.policy.retention.Canonical? && AgeAt(e, now) > e.policy.lifetime + e.policy.retention.keep
  }

  /** The answer is made of this entry: served without the origin only as the request allows, or
      else offered with its validators. */
  ghost predicate AnsweredBy(request: Request, e: Entry, now: Duration, result: LookupResult) {
    match result
    case Hit(v, response) => Repeats(response, e, AgeAt(e, now)) && Obeys(request, e.policy, v, AgeAt(e, now))
    case Conditional(response, validators, _) => Repeats(response, e, AgeAt(e, now)) && validators == e.validators
    case _ => false
  }

  /** What a lookup comes to. It bypasses exactly the requests that are too large or of no concern
      to the cache; malformed directives and keys are reported; it answers from the one entry that
      fits, if there is one that is not past its keep; and otherwise it misses. */
  ghost predicate Replied(c: Config, slots: Slots, request: Request, now: Duration, result: LookupResult) {
    var input := request.input;
    var key := Identity.NewBaseKey(input, c.maxKeyBytes);
    && (result.BypassResult? <==>
          || TooLarge(c, input.headers)
          || (request.control.Some? && GoesAround(input.verb, input.headers, request.control.value)))
    && (result.InvalidRequest? <==> !TooLarge(c, input.headers) && request.control.None?)
    && (result.InvalidKey? <==> Concerns(c, request) && key.Err?)
    && (result.InvalidKey? ==> key == Err(result.error))
    && (result.Miss? <==>
          Concerns(c, request) && key.Ok? && forall k :: MayAnswer(c, slots, input, k) ==>
            PastKeep(slots[k].value, now))
    && (result.Miss? ==> key == Ok(result.base) && result.onlyIfCached == request.control.value.onlyIfCached)
    && (result.Hit? || result.Conditional? ==>
          && Concerns(c, request) && MayAnswer(c, slots, input, result.response.key)
          && !PastKeep(slots[result.response.key].value, now)
          && AnsweredBy(request, slots[result.response.key].value, now, result))
  }

  lemma CandidateIff(c: Config, slots: Slots, input: KeyInput, base: BaseKey, k: CacheKey)
    requires Identity.NewBaseKey(input, c.maxKeyBytes) == Ok(base)
    ensures Candidate(c, slots, base, input.headers, k) <==> MayAnswer(c, slots, input, k)
  {
    hide Identity.NewBaseKey, KeyFor, KeyLen, HasHeader, ValuesOf;
    HasHeaderIff(input.headers, Ascii("authorization"));
  }

  /** Every lookup, in every state of the cache. */
  lemma LookupReplies(c: Config, owner: nat, s: Mem, request: Request, now: Duration, found: Option<CacheKey>,
                      result: LookupResult, s': Mem)
    requires Inv(c, s) && LookupTaken(c, owner, s, request, now, found, result, s')
    ensures Replied(c, s.shelf.slots, request, now, result)
  {
    hide GoesAround, Identity.NewBaseKey, Evaluate, Inv, TooLarge, LookedUnder, AnsweredBy, PastKeep, MayAnswer,
         Matching;
    AskOf(c, request);
    var ask := Evaluate(c, request);
    if ask.AskFor? {
      AskedReplies(c, s, request, ask, now, found, result, s');
    }
  }

  /** The part of a lookup under the lock. */
  lemma AskedReplies(c: Config, s: Mem, request: Request, ask: Ask, now: Duration, found: Option<CacheKey>,
                     result: LookupResult, s': Mem)
    requires Inv(c, s) && ask == Evaluate(c, request) && ask.AskFor? && ask.policy.mode != Bypass
    requires Identity.NewBaseKey(request.input, c.maxKeyBytes) == Ok(ask.base)
    requires var matching := Matching(c, s.shelf.slots, ask, request.input.headers);
             LookedUnder(s, ask.base, ask.policy, matching, now, found, result, s')
    ensures result.Miss? || result.Hit? || result.Conditional?
    ensures var slots := s.shelf.slots;
            && (result.Miss? <==> forall k :: MayAnswer(c, slots, request.input, k) ==> PastKeep(slots[k].value, now))
            && (result.Miss? ==> result.base == ask.base && result.onlyIfCached == ask.policy.onlyIfCached)
            && (result.Hit? || result.Conditional? ==>
                  && MayAnswer(c, slots, request.input, result.response.key)
                  && !PastKeep(slots[result.response.key].value, now)
                  && AnsweredBy(request, slots[result.response.key].value, now, result))
  {
    hide Identity.NewBaseKey, Evaluate, Candidate, MayAnswer, Judge, S.Valid, CountersInv, FillsInv, Obeys, Repeats,
         Snapshot;
    var slots, input := s.shelf.slots, request.input;
    forall k
      ensures Candidate(c, slots, ask.base, input.headers, k) <==> MayAnswer(c, slots, input, k)
    {
      CandidateIff(c, slots, input, ask.base, k);
    }
    MayAnswerResident(c, slots, input);
    forall a, b | MayAnswer(c, slots, input, a) && MayAnswer(c, slots, input, b)
      ensures a == b
    {
      MatchIsUnique(c, slots, ask, input.headers, a, b);
    }
    if found.Some? {
      var e := slots[found.value].value;
      WindowsAreExact(e.policy, AgeAt(e, now));
      assert LabelledAt(slots[found.value], found.value);
      SnapshotRepeats(e, AgeAt(e, now));
      SnapshotKey(e, AgeAt(e, now));
      if result.Hit? {
        HitIsSafe(s, ask.base, ask.policy, Matching(c, slots, ask, input.headers), now, found, result, s');
        ServedObeys(c, request, e.policy, result.verdict, AgeAt(e, now));
      }
    }
  }

  lemma MayAnswerResident(c: Config, slots: Slots, input: KeyInput)
    ensures forall k :: MayAnswer(c, slots, input, k) ==> k in slots
  {
    hide Identity.NewBaseKey, MatchesRequest, ValuesOf;
  }

  lemma SnapshotKey(e: Entry, age: Duration)
    ensures Snapshot(e, age).key == e.key
  {
    hide WithoutName, Identity.Decimal;
  }

  // ---------------------------------------------------------------- when the origin fails

  /** There is an answer on an error exactly if the resident entry may be used stale and is not
      past its lifetime by more than its error window; and the answer repeats the entry. */
  ghost predicate ErrorReplied(slots: Slots, key: CacheKey, now: Duration, response: Option<Response>) {
    && (response.Some? <==>
          key in slots
          && var e := slots[key].value;
             && !e.policy.mustRevalidateStale && 0 < e.policy.staleIfError
             && AgeAt(e, now) <= e.policy.lifetime + e.policy.staleIfError)
    && (response.Some? ==> Repeats(response.value, slots[key].value, AgeAt(slots[key].value, now)))
  }

  lemma ErrorReplies(c: Config, owner: nat, s: Mem, key: CacheKey, now: Duration, response: Option<Response>, s': Mem)
    requires Step(c, owner, s, ErrorEvent(key, now, response), s')
    ensures ErrorReplied(s.shelf.slots, key, now, response)
  {
    hide Repeats, Snapshot, S.Touch, ServesOnError;
    if key in s.shelf.slots {
      var e := s.shelf.slots[key].value;
      WindowsAreExact(e.policy, AgeAt(e, now));
      SnapshotRepeats(e, AgeAt(e, now));
    }
  }
}
