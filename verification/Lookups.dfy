/** From a request to the question it asks of the cache: directive and key evaluation at the
    head of `Cache::lookup`, and the keys `matching_key` considers. */
module Lookups {
  import opened Prelude
  import opened Http
  import opened Keys
  import opened Policy
  import opened Entries
  import opened CacheModel
  import Identity

  /** A request with its parsed `Cache-Control`; `None` stands for malformed directives. */
  datatype Request = Request(input: KeyInput, control: Option<CacheControl>)

  const AUTHORIZATION: Bytes := Ascii("authorization")

  /** The checks of `Cache::lookup` before it takes the lock, in order. */
  function Evaluate(c: Config, request: Request): Ask {
    var input := request.input;
    if !BoundedHeaders(c, input.headers) then SkipCache
    else if request.control.None? then BadRequest
    else
      var policy := EvaluateRequest(input.verb, input.headers, request.control.value);
      if policy.mode == Bypass then SkipCache
      else
        match Identity.NewBaseKey(input, c.maxKeyBytes)
        case Err(error) => BadKey(error)
        case Ok(base) => AskFor(base, policy)
  }

  /** A key the request may be answered from. */
  predicate Candidate(c: Config, slots: Slots, base: BaseKey, headers: Headers, k: CacheKey) {
    && k in slots
    && MatchesRequest(k, base, headers, c.maxKeyBytes)
    && (HasHeader(headers, AUTHORIZATION) ==> slots[k].value.policy.allowsAuthorizedReuse)
  }

  function Matching(c: Config, slots: Slots, ask: Ask, headers: Headers): set<CacheKey> {
    match ask
    case AskFor(base, _) => set k | k in slots && Candidate(c, slots, base, headers, k)
    case _ => {}
  }

  /** The memory cache took the step of this lookup. */
  ghost predicate LookupTaken(c: Config, owner: nat, s: Mem, request: Request, now: Duration, found: Option<CacheKey>,
                              result: LookupResult, s': Mem) {
    var ask := Evaluate(c, request);
    Step(c, owner, s, LookupEvent(ask, Matching(c, s.shelf.slots, ask, request.input.headers), now, found, result), s')
  }

  /** At most one resident key matches a request, so the answer of `matching_key` depends
      neither on hash-map order nor on the recency tie-break. */
  lemma MatchIsUnique(c: Config, slots: Slots, ask: Ask, headers: Headers, a: CacheKey, b: CacheKey)
    requires OneSchema(slots.Keys)
    requires a in Matching(c, slots, ask, headers) && b in Matching(c, slots, ask, headers)
    ensures a == b
  {
    MatchUniqueInSchema(a, b, ask.base, headers, c.maxKeyBytes);
  }

  /** A stored entry is found again by the request it was stored for, as long as it is
      resident and the request may use it. */
  lemma StoredIsFound(c: Config, slots: Slots, base: BaseKey, policy: RequestPolicy, headers: Headers,
                      names: seq<Bytes>)
    requires var k := KeyFor(base, headers, names);
             && k in slots && KeyLen(k) <= c.maxKeyBytes && OneSchema(slots.Keys)
             && (HasHeader(headers, AUTHORIZATION) ==> slots[k].value.policy.allowsAuthorizedReuse)
    ensures Matching(c, slots, AskFor(base, policy), headers) == {KeyFor(base, headers, names)}
  {
    var k := KeyFor(base, headers, names);
    var ask := AskFor(base, policy);
    BuiltKeyMatches(base, headers, names, c.maxKeyBytes);
    forall j | j in Matching(c, slots, ask, headers)
      ensures j == k
    {
      MatchIsUnique(c, slots, ask, headers, j, k);
    }
  }
}
