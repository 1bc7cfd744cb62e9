/** Staleness over whole runs, in terms of what the origin said: every answer from storage,
    whether served, offered for revalidation or given on an error, respects the directives of
    the response it came from and the timeline that was in force. */
module Staleness {
  import opened Prelude
  import opened Keys
  import opened Policy
  import opened Entries
  import opened Prepare
  import opened CacheModel
  import opened CacheRuns
  import opened Lookups
  import opened Replies
  import Identity
  import S = Shelf

  // ---------------------------------------------------------------- sources

  /** The entry is the one made from the exchange, or the same with its age moved. */
  ghost predicate ComesFrom(c: Config, x: Exchange, e: Entry) {
    exists origin :: MadeFrom(c, x, origin) && SameRepresentation(e, origin)
  }

  /** What an event inserts comes from its exchange: leaders publish what `prepare` made, and
      recovery restores what once was made so. */
  ghost predicate EventSourced(c: Config, x: Exchange, event: Event) {
    && (event.PublishEvent? && event.delta.Some? ==> MadeFrom(c, x, event.entry))
    && (event.RestoreEvent? && event.delta.Some? ==> ComesFrom(c, x, event.entry))
  }

  /** A run with the exchange behind every event that inserts. */
  ghost predicate IsSourced(c: Config, run: Run, sources: seq<Exchange>) {
    |sources| == |run.events| && forall i :: 0 <= i < |run.events| ==> EventSourced(c, sources[i], run.events[i])
  }

  lemma ComesHolds(c: Config, x: Exchange, e: Entry)
    requires ComesFrom(c, x, e)
    ensures Holds(c, x, e)
  {
    hide MadeFrom, MayKeep, StatusKept, LastsFor, Validates, Identity.NewBaseKey, MatchesRequest, KeyedBy;
    var origin :| MadeFrom(c, x, origin) && SameRepresentation(e, origin);
    MadeHolds(c, x, origin);
    assert e.policy == origin.policy.(initialAge := e.policy.initialAge);
  }

  /** The event that brought a resident entry in, and what its exchange says of the entry. */
  lemma SourceOf(c: Config, owner: nat, run: Run, sources: seq<Exchange>, j: nat, k: CacheKey) returns (i: nat)
    requires Accountable(c) && IsRun(c, owner, run) && IsSourced(c, run, sources) && j <= |run.events|
    requires k in run.states[j].shelf.slots
    ensures i < j && InsertedBy(run.events[i]) == Some(run.states[j].shelf.slots[k].value)
    ensures Holds(c, sources[i], run.states[j].shelf.slots[k].value)
    ensures run.events[i].PublishEvent? ==>
              sources[i].response.dates.Some?
              && forall now :: AgeAt(run.states[j].shelf.slots[k].value, now) == AgeOf(sources[i], now)
  {
    hide StepAt, MadeFrom, ComesFrom, Holds, Honours, AgeAt, AgeOf;
    ResidentsWereInserted(c, owner, run, j, k);
    var e := run.states[j].shelf.slots[k].value;
    i :| 0 <= i < j && InsertedBy(run.events[i]) == Some(e);
    assert EventSourced(c, sources[i], run.events[i]);
    if run.events[i].PublishEvent? {
      MadeHolds(c, sources[i], e);
      MadeHonours(c, sources[i], e);
      HoldsParsed(c, sources[i], e);
    } else {
      ComesHolds(c, sources[i], e);
    }
  }

  lemma HoldsParsed(c: Config, x: Exchange, e: Entry)
    requires Holds(c, x, e)
    ensures Honours(c, x, e.policy) && x.response.control.Some? && x.response.dates.Some?
  {
    hide MayKeep, StatusKept, Reflects, Validates, Identity.NewBaseKey, MatchesRequest, KeyedBy;
  }

  // ---------------------------------------------------------------- answers

  /** Never past the lifetime plus what the timeline keeps. */
  predicate WithinKeep(x: Exchange, p: ResponsePolicy, age: Duration) {
    x.timeline.Some? ==> age <= p.lifetime + x.timeline.value.keep
  }

  /** An answer given without asking the origin. */
  predicate SafeHit(x: Exchange, q: RequestPolicy, p: ResponsePolicy, v: Verdict, age: Duration)
    requires x.response.control.Some?
  {
    && MayServe(q, p, v, age) && WithinKeep(x, p, age) && !x.response.control.value.noCache
    && (RefusesStale(x.response.control.value) ==> v.Fresh? && age <= p.lifetime)
  }

  /** A stored response handed out with its validators, to be used only after the origin
      confirmed it or, with the flag, when the origin fails. */
  predicate SafeOffer(x: Exchange, p: ResponsePolicy, onError: bool, age: Duration)
    requires x.response.control.Some?
  {
    && WithinKeep(x, p, age)
    && (onError ==>
          !RefusesStale(x.response.control.value) && 0 < p.staleIfError && age <= p.lifetime + p.staleIfError)
  }

  /** The response of the exchange, under the key of the entry and with this age. */
  ghost predicate Returns(x: Exchange, e: Entry, response: Response, age: Duration) {
    response.key == e.key && Carries(response, x.response.status, x.response.headers, x.response.body, age)
  }

  /** An answer given because the origin failed. */
  ghost predicate SafeOnError(x: Exchange, e: Entry, response: Response, age: Duration)
    requires x.response.control.Some?
  {
    && Returns(x, e, response, age)
    && WithinKeep(x, e.policy, age) && !RefusesStale(x.response.control.value)
    && 0 < e.policy.staleIfError && age <= e.policy.lifetime + e.policy.staleIfError
  }

  lemma HitHonours(c: Config, x: Exchange, q: RequestPolicy, p: ResponsePolicy, v: Verdict, age: Duration)
    requires Honours(c, x, p) && MayServe(q, p, v, age)
    ensures SafeHit(x, q, p, v, age)
  {
    hide LastsFor, MayKeep, StatusKept;
  }

  lemma OfferHonours(c: Config, x: Exchange, q: RequestPolicy, p: ResponsePolicy, age: Duration)
    requires Honours(c, x, p) && q.mode != Bypass && !IsExpired(p, age) && Judge(q, p, age).MustRevalidate?
    ensures SafeOffer(x, p, Judge(q, p, age).staleIfError, age)
  {
    hide LastsFor, MayKeep, StatusKept;
    JudgeIsSafe(q, p, age);
    WindowsAreExact(p, age);
    if x.timeline.Some? {
      CanonicalNeverPastKeep(p, age);
    }
  }

  lemma ErrorHonours(c: Config, x: Exchange, e: Entry, age: Duration)
    requires Holds(c, x, e) && ServesOnError(e.policy, age)
    ensures SafeOnError(x, e, Snapshot(e, age), age)
  {
    hide LastsFor, MayKeep, StatusKept, Carries, Snapshot, Validates, Identity.NewBaseKey, MatchesRequest, KeyedBy;
    WindowsAreExact(e.policy, age);
    SnapshotRepeats(e, age);
    if x.timeline.Some? {
      CanonicalNeverPastKeep(e.policy, age);
    }
  }

  /** What a lookup may hand out of an entry at an age. */
  ghost predicate SafeAnswer(x: Exchange, q: RequestPolicy, e: Entry, result: LookupResult, age: Duration)
    requires x.response.control.Some?
  {
    match result
    case Hit(v, response) => Returns(x, e, response, age) && SafeHit(x, q, e.policy, v, age)
    case Conditional(response, validators, onError) =>
      && Returns(x, e, response, age) && Validates(x.response.headers, validators)
      && SafeOffer(x, e.policy, onError, age)
    case _ => true
  }

  predicate Answers(result: LookupResult) {
    result.Hit? || result.Conditional?
  }

  /** One lookup, whatever came before it: the answer is safe for every exchange the found
      entry honours. */
  lemma LookupHonours(c: Config, x: Exchange, s: Mem, base: BaseKey, q: RequestPolicy, matching: set<CacheKey>,
                      now: Duration,
                      found: Option<CacheKey>, result: LookupResult, s': Mem)
    requires LookedUnder(s, base, q, matching, now, found, result, s') && q.mode != Bypass && Answers(result)
    requires found.Some? && found.value in s.shelf.slots ==> Holds(c, x, s.shelf.slots[found.value].value)
    ensures found.Some? && found.value in s.shelf.slots && x.response.control.Some?
    ensures var e := s.shelf.slots[found.value].value; SafeAnswer(x, q, e, result, AgeAt(e, now))
  {
    hide Judge, Snapshot, MayServe, SafeHit, SafeOffer, Honours, Carries, Validates, Identity.NewBaseKey,
         MatchesRequest, KeyedBy;
    var e := s.shelf.slots[found.value].value;
    var age := AgeAt(e, now);
    HoldsParsed(c, x, e);
    SnapshotRepeats(e, age);
    if result.Hit? {
      HitIsSafe(s, base, q, matching, now, found, result, s');
      HitHonours(c, x, q, e.policy, result.verdict, age);
    } else {
      OfferHonours(c, x, q, e.policy, age);
    }
  }

  // ---------------------------------------------------------------- runs

  /** The question of the event is the one this request asks. */
  ghost predicate Posed(c: Config, slots: Slots, ev: Event, request: Request)
    requires ev.LookupEvent?
  {
    ev.ask == Evaluate(c, request) && ev.matching == Matching(c, slots, ev.ask, request.input.headers)
  }

  /** Over every run: whatever a lookup hands out is the response, at its present age, of an
      exchange that the entry came from, and it is safe by what that exchange says. It answers only
      requests that the exchange applies to, and as they allow. The age of an entry that was
      published in the run is the age of section 4.2.3 of RFC 9111. */
  lemma LookupsAreSafe(c: Config, owner: nat, run: Run, sources: seq<Exchange>, j: nat) returns (i: nat, k: CacheKey)
    requires Accountable(c) && IsRun(c, owner, run) && IsSourced(c, run, sources) && j < |run.events|
    requires run.events[j].LookupEvent? && run.events[j].ask.AskFor?
    requires Answers(run.events[j].result)
    ensures i < j && k in run.states[j].shelf.slots && sources[i].response.control.Some?
            && sources[i].response.dates.Some?
    ensures var ev, e := run.events[j], run.states[j].shelf.slots[k].value;
            && InsertedBy(run.events[i]) == Some(e) && Holds(c, sources[i], e)
            && SafeAnswer(sources[i], ev.ask.policy, e, ev.result, AgeAt(e, ev.now))
            && (run.events[i].PublishEvent? ==> AgeAt(e, ev.now) == AgeOf(sources[i], ev.now))
            && forall request :: Posed(c, run.states[j].shelf.slots, ev, request) ==>
                 && Applies(sources[i], request.input)
                 && (ev.result.Hit? ==> Obeys(request, e.policy, ev.result.verdict, AgeAt(e, ev.now)))
  {
    hide Holds, SafeAnswer, AgeAt, AgeOf, EventSourced, Inv, LookedUnder, Posed, Applies, Obeys;
    var ev, s := run.events[j], run.states[j];
    assert StepAt(c, owner, run, j);
    FoundResident(s, ev.ask.base, ev.ask.policy, ev.matching, ev.now, ev.found, ev.result, run.states[j + 1]);
    k := ev.found.value;
    i := SourceOf(c, owner, run, sources, j, k);
    LookupHonours(c, sources[i], s, ev.ask.base, ev.ask.policy, ev.matching, ev.now, ev.found, ev.result,
                  run.states[j + 1]);
    HoldsParsed(c, sources[i], s.shelf.slots[k].value);
    InvThroughout(c, owner, run, j);
    forall request | Posed(c, s.shelf.slots, ev, request)
      ensures Applies(sources[i], request.input)
      ensures ev.result.Hit? ==>
                Obeys(request, s.shelf.slots[k].value.policy, ev.result.verdict, AgeAt(s.shelf.slots[k].value, ev.now))
    {
      AnswerApplies(c, sources[i], s, ev, request, run.states[j + 1]);
    }
  }

  /** What answers a request comes from an exchange that applies to it. */
  lemma AnswerApplies(c: Config, x: Exchange, s: Mem, ev: Event, request: Request, s': Mem)
    requires Inv(c, s) && ev.LookupEvent? && ev.ask.AskFor? && ev.ask.policy.mode != Bypass && Answers(ev.result)
    requires LookedUnder(s, ev.ask.base, ev.ask.policy, ev.matching, ev.now, ev.found, ev.result, s')
    requires ev.found.Some? && ev.found.value in s.shelf.slots && Holds(c, x, s.shelf.slots[ev.found.value].value)
    requires Posed(c, s.shelf.slots, ev, request)
    ensures Applies(x, request.input)
    ensures var e := s.shelf.slots[ev.found.value].value;
            ev.result.Hit? ==> Obeys(request, e.policy, ev.result.verdict, AgeAt(e, ev.now))
  {
    hide Holds, Candidate, Applies, Obeys, MayServe, Repeats, S.Valid, CountersInv, FillsInv, OneSchema,
         Identity.NewBaseKey, EvaluateRequest, Judge, Snapshot;
    var k := ev.found.value;
    assert LabelledAt(s.shelf.slots[k], k);
    HeldApplies(c, x, s.shelf.slots, k, request.input, ev.ask.base);
    if ev.result.Hit? {
      HitIsSafe(s, ev.ask.base, ev.ask.policy, ev.matching, ev.now, ev.found, ev.result, s');
      ServedObeys(c, request, s.shelf.slots[k].value.policy, ev.result.verdict, AgeAt(s.shelf.slots[k].value, ev.now));
    }
  }

  lemma FoundResident(s: Mem, base: BaseKey, q: RequestPolicy, matching: set<CacheKey>, now: Duration,
                      found: Option<CacheKey>, result: LookupResult, s': Mem)
    requires LookedUnder(s, base, q, matching, now, found, result, s') && Answers(result)
    ensures found.Some? && found.value in s.shelf.slots
  {
    hide Judge, Snapshot;
  }

  /** Over every run the same holds of answers on an upstream error. */
  lemma ErrorsAreSafe(c: Config, owner: nat, run: Run, sources: seq<Exchange>, j: nat) returns (i: nat)
    requires Accountable(c) && IsRun(c, owner, run) && IsSourced(c, run, sources) && j < |run.events|
    requires run.events[j].ErrorEvent? && run.events[j].response.Some?
    ensures i < j && run.events[j].key in run.states[j].shelf.slots
    ensures sources[i].response.control.Some? && sources[i].response.dates.Some?
    ensures var ev, e := run.events[j], run.states[j].shelf.slots[run.events[j].key].value;
            && InsertedBy(run.events[i]) == Some(e) && Holds(c, sources[i], e)
            && SafeOnError(sources[i], e, ev.response.value, AgeAt(e, ev.now))
            && (run.events[i].PublishEvent? ==> AgeAt(e, ev.now) == AgeOf(sources[i], ev.now))
  {
    hide Holds, AgeAt, AgeOf, EventSourced, Inv, Snapshot, SafeOnError, ServesOnError;
    var ev, s := run.events[j], run.states[j];
    assert StepAt(c, owner, run, j);
    i := SourceOf(c, owner, run, sources, j, ev.key);
    var e := s.shelf.slots[ev.key].value;
    HoldsParsed(c, sources[i], e);
    ErrorHonours(c, sources[i], e, AgeAt(e, ev.now));
  }
}
